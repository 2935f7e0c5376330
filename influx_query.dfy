/**
 * The Flux statements the InfluxDB adapter sends: the range of a query, the filter built
 * from path patterns, the regular expression a wildcard tag value becomes, and the
 * grouping of history patterns by bucket.
 */
module InfluxQueries {

  import opened Wrappers
  import opened Shared
  import opened Strings

  /**
   * What a path names in InfluxDB: a measurement, a field and the value of the single tag
   * the adapter uses, if the path carries one. The path parser is not part of this model.
   */
  datatype Schema = Schema(measurement: string, field: string, tag: Option<string>)

  const WILDCARD := "*"
  const STAR := '*'
  const OR := " or "
  const FILTER_OPEN := " |> filter(fn: (r) => "
  const EMPTY_QUERY := "()"

  /** Integer.MAX_VALUE seconds, in milliseconds. */
  const CLAMPED_END: int := INT_MAX * 1000

  /** An end time of Long.MAX_VALUE stands for "no end" and becomes Integer.MAX_VALUE seconds. */
  function ClampEnd(endTime: Long): (r: Long)
    ensures r <= endTime
    ensures r == endTime <==> endTime != LONG_MAX
    ensures endTime == LONG_MAX ==> r == CLAMPED_END
  {
    if endTime == LONG_MAX then CLAMPED_END else endTime
  }

  /** `from(bucket:"b") |> range(start: s, stop: e)` with the times already formatted. */
  function RangeStatement(bucket: string, start: string, stop: string): string
  {
    "from(bucket:\"" + bucket + "\") |> range(start: " + start + ", stop: " + stop + ")"
  }

  // ---------------------------------------------------------------------------------------
  // Tag regular expressions

  function EscapeChar(c: char): string
  {
    if c == '.' then "\\." else if c == '*' then ".*" else [c]
  }

  /** A wildcard tag value as a regular expression: `.` is escaped and `*` matches anything. */
  function EscapeTag(value: string): string
    decreases |value|
  {
    if value == [] then [] else EscapeTag(value[..|value| - 1]) + EscapeChar(value[|value| - 1])
  }

  /** A value without `.` or `*` is its own regular expression. */
  lemma {:induction false} EscapeTagPlain(value: string)
    requires '.' !in value && STAR !in value
    ensures EscapeTag(value) == value
    decreases |value|
  {
    if value != [] {
      var n := |value| - 1;
      var init, last := value[..n], value[n];
      assert last in value;
      assert '.' !in init && STAR !in init by {
        assert forall k :: 0 <= k < n ==> init[k] == value[k] && value[k] in value;
      }
      EscapeTagPlain(init);
      assert EscapeChar(last) == [last];
      assert value == init + [last];
    }
  }

  /** The last character of an escaped character is that character. */
  lemma EscapeCharLast(c: char)
    ensures |EscapeChar(c)| > 0 && EscapeChar(c)[|EscapeChar(c)| - 1] == c
  {
  }

  /**
   * Reads a tag value back from its regular expression, from the end: the last character
   * names the character it escapes, and so how many characters its escape takes.
   */
  function UnescapeTag(regex: string): string
    decreases |regex|
  {
    if regex == [] then []
    else
      var c := regex[|regex| - 1];
      var k := |EscapeChar(c)|;
      if k <= |regex| then UnescapeTag(regex[..|regex| - k]) + [c] else [c]
  }

  /** Unescaping the regular expression of a tag value gives the value back. */
  lemma {:induction false} UnescapeEscapeTag(value: string)
    ensures UnescapeTag(EscapeTag(value)) == value
    decreases |value|
  {
    if value != [] {
      var n := |value| - 1;
      var rest, e := EscapeTag(value[..n]), EscapeChar(value[n]);
      EscapeCharLast(value[n]);
      var s := rest + e;
      assert s[|s| - 1] == value[n];
      assert s[..|s| - |e|] == rest;
      UnescapeEscapeTag(value[..n]);
      assert value == value[..n] + [value[n]];
    }
  }

  /** Distinct tag values give distinct regular expressions. */
  lemma EscapeTagInjective(a: string, b: string)
    requires EscapeTag(a) == EscapeTag(b)
    ensures a == b
  {
    UnescapeEscapeTag(a);
    UnescapeEscapeTag(b);
  }

  /** The character-by-character rewrite of a wildcard tag value. */
  method EscapeTagValue(value: string) returns (r: string)
    ensures r == EscapeTag(value)
  {
    r := "";
    for i := 0 to |value|
      invariant r == EscapeTag(value[..i])
    {
      var c := value[i];
      if c == '.' {
        r := r + "\\.";
      } else if c == STAR {
        r := r + ".*";
      } else {
        r := r + [c];
      }
      assert value[..i + 1][..i] == value[..i];
    }
    assert value[..|value|] == value;
  }

  // ---------------------------------------------------------------------------------------
  // Query filters

  /** The tag test of a clause: none without a tag, a regular expression for a wildcard value. */
  function TagTest(tag: Option<string>, tagKey: string): string
  {
    match tag
    case None => ""
    case Some(v) =>
      " and " + if STAR in v then "r." + tagKey + " =~ /" + EscapeTag(v) + "/"
                else "r." + tagKey + " == \"" + v + "\""
  }

  function MeasurementTest(measurement: string): string
  {
    if measurement == WILDCARD then "r._measurement =~ /.*/" else "r._measurement == \"" + measurement + "\""
  }

  function FieldTest(field: string): string
  {
    if field == WILDCARD then "r._field =~ /.*/" else "r._field == \"" + field + "\""
  }

  /** The parenthesised clause of one path. */
  function Clause(schema: Schema, tagKey: string): string
  {
    "(" + MeasurementTest(schema.measurement) + " and " + FieldTest(schema.field) + TagTest(schema.tag, tagKey) + ")"
  }

  function Clauses(paths: seq<string>, schemaOf: string -> Schema, tagKey: string): (r: seq<string>)
    ensures |r| == |paths|
    ensures forall i :: 0 <= i < |paths| ==> r[i] == Clause(schemaOf(paths[i]), tagKey)
  {
    seq(|paths|, i requires 0 <= i < |paths| => Clause(schemaOf(paths[i]), tagKey))
  }

  /**
   * The query of a storage unit's bucket: its time range, then, unless the paths are exactly
   * `["*"]`, one filter whose clauses, one per path and in order, are joined by " or ".
   */
  function QueryStatement(bucket: string, paths: seq<string>, start: Long, end: Long,
                          format: int -> string, schemaOf: string -> Schema, tagKey: string): (r: string)
    ensures RangeStatement(bucket, format(start), format(ClampEnd(end))) <= r
    ensures r == RangeStatement(bucket, format(start), format(ClampEnd(end))) <==> paths == [WILDCARD]
  {
    RangeStatement(bucket, format(start), format(ClampEnd(end)))
    + if paths == [WILDCARD] then "" else FILTER_OPEN + Join(Clauses(paths, schemaOf, tagKey), OR) + ")"
  }

  /** Unless the paths are exactly `["*"]`, the query tests the clause of every path. */
  lemma QueryStatementHasClause(bucket: string, paths: seq<string>, start: Long, end: Long,
                                format: int -> string, schemaOf: string -> Schema, tagKey: string, i: nat)
    requires paths != [WILDCARD] && i < |paths|
    ensures Contains(QueryStatement(bucket, paths, start, end, format, schemaOf, tagKey), Clause(schemaOf(paths[i]), tagKey))
  {
    var clauses := Clauses(paths, schemaOf, tagKey);
    var pre, post := JoinInfix(clauses, OR, i);
    var range := RangeStatement(bucket, format(start), format(ClampEnd(end)));
    var q := QueryStatement(bucket, paths, start, end, format, schemaOf, tagKey);
    assert q == range + (FILTER_OPEN + Join(clauses, OR) + ")");
    var before, after := Regroup(range, FILTER_OPEN, pre, clauses[i], post, ")");
    ContainsInfix(before, clauses[i], after);
  }

  /** The filter text around one clause, as the text before it and the text after it. */
  lemma Regroup(range: string, open: string, pre: string, clause: string, post: string, close: string)
    returns (before: string, after: string)
    ensures range + (open + (pre + clause + post) + close) == before + clause + after
  {
    before, after := range + open + pre, post + close;
  }

  /** Appends the clause of one path to the filter being built. */
  method AppendClause(filter: string, schema: Schema, tagKey: string) returns (r: string)
    ensures r == filter + Clause(schema, tagKey)
  {
    r := filter + "(";
    r := r + MeasurementTest(schema.measurement);
    r := r + " and ";
    r := r + FieldTest(schema.field);
    r := AppendTagTest(r, schema.tag, tagKey);
    r := r + ")";
  }

  /** Appends the tag test of a clause: nothing without a tag. */
  method AppendTagTest(filter: string, tag: Option<string>, tagKey: string) returns (r: string)
    ensures r == filter + TagTest(tag, tagKey)
  {
    r := filter;
    if tag.Some? {
      r := r + " and ";
      var value := tag.value;
      if STAR in value {
        var escaped := EscapeTagValue(value);
        r := r + "r." + tagKey + " =~ /" + escaped + "/";
      } else {
        r := r + "r." + tagKey + " == \"" + value + "\"";
      }
    }
  }

  /** One more clause extends the filter by the separator, when needed, and the clause. */
  lemma FilterStep(head: string, clauses: seq<string>, i: nat, filter: string)
    requires i < |clauses|
    requires filter == head + Join(clauses[..i], OR)
    ensures (if i != 0 then filter + OR else filter) + clauses[i] == head + Join(clauses[..i + 1], OR)
  {
    if i != 0 {
      JoinSnoc(clauses[..i], clauses[i], OR);
      assert clauses[..i + 1] == clauses[..i] + [clauses[i]];
    } else {
      assert clauses[..1] == [clauses[0]];
    }
  }

  /** The filter of a query, built clause by clause: the opening, then the clauses joined by " or ". */
  method BuildFilter(paths: seq<string>, schemaOf: string -> Schema, tagKey: string) returns (filter: string)
    ensures filter == FILTER_OPEN + Join(Clauses(paths, schemaOf, tagKey), OR)
  {
    ghost var clauses := Clauses(paths, schemaOf, tagKey);
    filter := FILTER_OPEN;
    for i := 0 to |paths|
      invariant filter == FILTER_OPEN + Join(clauses[..i], OR)
    {
      var schema := schemaOf(paths[i]);
      FilterStep(FILTER_OPEN, clauses, i, filter);
      if i != 0 {
        filter := filter + OR;
      }
      filter := AppendClause(filter, schema, tagKey);
    }
    assert clauses[..|paths|] == clauses;
  }

  /** The query of a storage unit's bucket. */
  method GenerateQueryStatement(bucket: string, paths: seq<string>, start: Long, end: Long,
                                format: int -> string, schemaOf: string -> Schema, tagKey: string)
    returns (statement: string)
    ensures statement == QueryStatement(bucket, paths, start, end, format, schemaOf, tagKey)
  {
    var endTime := end;
    if endTime == LONG_MAX {
      endTime := INT_MAX;
      endTime := endTime * 1000;
    }
    statement := RangeStatement(bucket, format(start), format(endTime));
    if |paths| != 1 || paths[0] != WILDCARD {
      var filter := BuildFilter(paths, schemaOf, tagKey);
      filter := filter + ")";
      statement := statement + filter;
    } else {
      assert paths == [WILDCARD];
    }
  }

  // ---------------------------------------------------------------------------------------
  // History queries

  /**
   * Queries grouped by bucket, in pattern order: a bucket seen again gets " or " and the new
   * query appended to what it already has.
   */
  function Grouped(pairs: seq<(string, string)>): (r: map<string, string>)
    ensures r.Keys == set p | p in pairs :: p.0
    decreases |pairs|
  {
    if pairs == [] then map[]
    else
      var g := Grouped(pairs[..|pairs| - 1]);
      var (bucket, query) := pairs[|pairs| - 1];
      assert pairs == pairs[..|pairs| - 1] + [(bucket, query)];
      g[bucket := if bucket in g then g[bucket] + OR + query else query]
  }

  lemma GroupedSnoc(pairs: seq<(string, string)>, bucket: string, query: string)
    ensures var g := Grouped(pairs);
            Grouped(pairs + [(bucket, query)]) == g[bucket := if bucket in g then g[bucket] + OR + query else query]
  {
    assert (pairs + [(bucket, query)])[..|pairs|] == pairs;
  }

  /** The queries of one bucket, in pattern order. */
  function QueriesOf(pairs: seq<(string, string)>, bucket: string): seq<string>
    decreases |pairs|
  {
    if pairs == [] then []
    else
      var prev := QueriesOf(pairs[..|pairs| - 1], bucket);
      if pairs[|pairs| - 1].0 == bucket then prev + [pairs[|pairs| - 1].1] else prev
  }

  /** A bucket is grouped iff some pattern names it, and its entry joins all its queries with " or ". */
  lemma {:induction false} GroupedJoinsQueries(pairs: seq<(string, string)>, bucket: string)
    ensures bucket in Grouped(pairs) <==> QueriesOf(pairs, bucket) != []
    ensures bucket in Grouped(pairs) ==> Grouped(pairs)[bucket] == Join(QueriesOf(pairs, bucket), OR)
    decreases |pairs|
  {
    if pairs != [] {
      var n := |pairs| - 1;
      GroupedJoinsQueries(pairs[..n], bucket);
      if pairs[n].0 == bucket && QueriesOf(pairs[..n], bucket) != [] {
        JoinSnoc(QueriesOf(pairs[..n], bucket), pairs[n].1, OR);
      }
    }
  }

  /** The queries of a bucket are the queries of exactly the patterns that name it. */
  lemma {:induction false} QueriesOfNamed(pairs: seq<(string, string)>, bucket: string)
    ensures forall q :: q in QueriesOf(pairs, bucket) <==> (bucket, q) in pairs
    decreases |pairs|
  {
    if pairs != [] {
      var n := |pairs| - 1;
      QueriesOfNamed(pairs[..n], bucket);
      assert pairs == pairs[..n] + [pairs[n]];
    }
  }

  /** Each pattern's bucket and query. */
  function Processed(patterns: seq<string>, process: string -> (string, string)): (r: seq<(string, string)>)
    ensures |r| == |patterns|
    ensures forall i :: 0 <= i < |patterns| ==> r[i] == process(patterns[i])
  {
    seq(|patterns|, i requires 0 <= i < |patterns| => process(patterns[i]))
  }

  /** The grouping loop over the patterns of a history query. */
  method GroupPatterns(patterns: seq<string>, process: string -> (string, string))
    returns (bucketQueries: map<string, string>)
    ensures bucketQueries == Grouped(Processed(patterns, process))
  {
    ghost var pairs := Processed(patterns, process);
    bucketQueries := map[];
    for i := 0 to |patterns|
      invariant bucketQueries == Grouped(pairs[..i])
    {
      var (bucket, query) := process(patterns[i]);
      assert pairs[i] == (bucket, query);
      assert pairs[..i + 1] == pairs[..i] + [(bucket, query)];
      GroupedSnoc(pairs[..i], bucket, query);
      var fullQuery := "";
      if bucket in bucketQueries {
        fullQuery := bucketQueries[bucket];
        fullQuery := fullQuery + OR;
      }
      fullQuery := fullQuery + query;
      assert fullQuery == if bucket in bucketQueries then bucketQueries[bucket] + OR + query else query;
      bucketQueries := bucketQueries[bucket := fullQuery];
    }
    assert pairs[..|patterns|] == pairs;
  }

  /** A history bucket's statement: its range, then its grouped filter unless that is `()`. */
  function HistoryStatement(bucket: string, query: string, start: string, stop: string): string
  {
    RangeStatement(bucket, start, stop) + if query == EMPTY_QUERY then "" else FILTER_OPEN + query + ")"
  }

  /** One statement per grouped bucket, over the clamped time range. */
  method HistoryStatements(bucketQueries: map<string, string>, start: Long, end: Long, format: int -> string)
    returns (statements: map<string, string>)
    ensures statements.Keys == bucketQueries.Keys
    ensures forall b :: b in bucketQueries ==>
              statements[b] == HistoryStatement(b, bucketQueries[b], format(start), format(ClampEnd(end)))
  {
    var endTime := end;
    if endTime == LONG_MAX {
      endTime := INT_MAX;
      endTime := endTime * 1000;
    }
    statements := map[];
    var rest := bucketQueries.Keys;
    while rest != {}
      invariant rest <= bucketQueries.Keys
      invariant statements.Keys == bucketQueries.Keys - rest
      invariant forall b :: b in statements ==>
                  statements[b] == HistoryStatement(b, bucketQueries[b], format(start), format(endTime))
      decreases rest
    {
      var bucket :| bucket in rest;
      var statement := RangeStatement(bucket, format(start), format(endTime));
      if bucketQueries[bucket] != EMPTY_QUERY {
        statement := statement + FILTER_OPEN + bucketQueries[bucket] + ")";
      }
      statements := statements[bucket := statement];
      rest := rest - {bucket};
    }
  }
}
