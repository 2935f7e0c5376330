/**
 * The points an insert into InfluxDB writes. A batch arrives row-oriented (one bitmap over
 * the paths per timestamp) or column-oriented (one bitmap over the timestamps per path);
 * either way the values of one row or column are stored compactly, so the k-th present
 * cell of a row or column reads value index k.
 */
module InfluxPoints {

  import opened Wrappers
  import opened Shared
  import opened InfluxServer
  import opened InfluxQueries

  datatype RawDataKind = Row | NonAlignedRow | Column | NonAlignedColumn

  /**
   * A batch: for a row kind, `bitmaps[i]` and `values[i]` belong to timestamp i; for a column
   * kind, to path i.
   */
  datatype DataView = DataView(kind: RawDataKind, paths: seq<string>, types: seq<DataType>,
                               timestamps: seq<Long>, bitmaps: seq<seq<bool>>, values: seq<seq<Datum>>)

  predicate IsRowView(d: DataView)
  {
    d.kind == Row || d.kind == NonAlignedRow
  }

  /** How many of the first `k` bits are set: the value index of a present cell at position `k`. */
  function Rank(bits: seq<bool>, k: nat): (r: nat)
    requires k <= |bits|
    ensures r <= k
    decreases k
  {
    if k == 0 then 0 else Rank(bits, k - 1) + if bits[k - 1] then 1 else 0
  }

  /** The value index at position `k` is the number of set bits among the first `k`. */
  lemma {:induction false} RankCounts(bits: seq<bool>, k: nat)
    requires k <= |bits|
    ensures Rank(bits, k) == multiset(bits[..k])[true]
    ensures Rank(bits, k) == k <==> forall j :: 0 <= j < k ==> bits[j]
    decreases k
  {
    if k > 0 {
      RankCounts(bits, k - 1);
      assert bits[..k] == bits[..k - 1] + [bits[k - 1]];
    }
  }

  /** The shape a data view guarantees: one bitmap per row (or column) and enough values for its set bits. */
  predicate Shaped(d: DataView)
  {
    var lines := if IsRowView(d) then |d.timestamps| else |d.paths|;
    var width := if IsRowView(d) then |d.paths| else |d.timestamps|;
    && |d.types| == |d.paths| && |d.bitmaps| == lines && |d.values| == lines
    && forall i :: 0 <= i < lines ==> |d.bitmaps[i]| == width && Rank(d.bitmaps[i], width) <= |d.values[i]|
  }

  /**
   * One row or column, position by position: the schema, type and time of the cell at each
   * position, whether it is present, and the compact values.
   */
  datatype Line = Line(schemas: seq<Schema>, types: seq<DataType>, times: seq<int>, bits: seq<bool>, values: seq<Datum>)

  predicate LineShaped(l: Line)
  {
    |l.schemas| == |l.bits| && |l.types| == |l.bits| && |l.times| == |l.bits| && Rank(l.bits, |l.bits|) <= |l.values|
  }

  /** The tags of a point: the schema's tag, under the tag key, if it has one. */
  function TagsOf(schema: Schema, tagKey: string): map<string, string>
  {
    if schema.tag.Some? then map[tagKey := schema.tag.value] else map[]
  }

  function MakePoint(schema: Schema, tagKey: string, dataType: DataType, value: Datum, time: int): Point
  {
    Point(schema.measurement, TagsOf(schema, tagKey), schema.field, dataType, value, time)
  }

  /** The points of the first `k` positions of a line, one per set bit. */
  function LinePoints(l: Line, k: nat, tagKey: string): (r: seq<Point>)
    requires LineShaped(l) && k <= |l.bits|
    ensures |r| == Rank(l.bits, k)
    decreases k
  {
    if k == 0 then []
    else
      var prev := LinePoints(l, k - 1, tagKey);
      var j := k - 1;
      if l.bits[j] then
        assert Rank(l.bits, j) < Rank(l.bits, |l.bits|) by { RankMonotone(l.bits, k, |l.bits|); }
        prev + [MakePoint(l.schemas[j], tagKey, l.types[j], l.values[Rank(l.bits, j)], l.times[j])]
      else prev
  }

  lemma {:induction false} RankMonotone(bits: seq<bool>, j: nat, k: nat)
    requires j <= k <= |bits|
    ensures Rank(bits, j) <= Rank(bits, k)
    decreases k - j
  {
    if j < k {
      RankMonotone(bits, j, k - 1);
    }
  }

  /** The present cell at position `j` becomes the point at index Rank(bits, j), reading value index Rank(bits, j). */
  lemma {:induction false} LinePointAt(l: Line, k: nat, j: nat, tagKey: string)
    requires LineShaped(l) && j < k <= |l.bits| && l.bits[j]
    ensures Rank(l.bits, j) < Rank(l.bits, k) && Rank(l.bits, j) < |l.values|
    ensures LinePoints(l, k, tagKey)[Rank(l.bits, j)]
            == MakePoint(l.schemas[j], tagKey, l.types[j], l.values[Rank(l.bits, j)], l.times[j])
    decreases k
  {
    RankMonotone(l.bits, j + 1, |l.bits|);
    RankMonotone(l.bits, j + 1, k);
    if j < k - 1 {
      LinePointAt(l, k - 1, j, tagKey);
    }
  }

  /** The points of a batch: the points of each line in turn. */
  function BatchPoints(lines: seq<Line>, tagKey: string): (r: seq<Point>)
    requires forall i :: 0 <= i < |lines| ==> LineShaped(lines[i])
    decreases |lines|
  {
    if lines == [] then []
    else
      var n := |lines| - 1;
      BatchPoints(lines[..n], tagKey) + LinePoints(lines[n], |lines[n].bits|, tagKey)
  }

  /** How many cells of the lines are present: the set bits of all their bitmaps. */
  function PresentCells(lines: seq<Line>): nat
    decreases |lines|
  {
    if lines == [] then 0
    else
      var n := |lines| - 1;
      PresentCells(lines[..n]) + Rank(lines[n].bits, |lines[n].bits|)
  }

  /** A batch writes exactly one point per present cell. */
  lemma {:induction false} BatchPointsCount(lines: seq<Line>, tagKey: string)
    requires forall i :: 0 <= i < |lines| ==> LineShaped(lines[i])
    ensures |BatchPoints(lines, tagKey)| == PresentCells(lines)
    decreases |lines|
  {
    if lines != [] {
      BatchPointsCount(lines[..|lines| - 1], tagKey);
    }
  }

  /** The points of the first lines come first. */
  lemma {:induction false} BatchPointsPrefix(lines: seq<Line>, i: nat, tagKey: string)
    requires forall i :: 0 <= i < |lines| ==> LineShaped(lines[i])
    requires i < |lines|
    ensures BatchPoints(lines[..i], tagKey) + LinePoints(lines[i], |lines[i].bits|, tagKey) <= BatchPoints(lines, tagKey)
    decreases |lines|
  {
    var n := |lines| - 1;
    if i == n {
      assert lines[..n + 1] == lines;
    } else {
      assert lines[..n][..i] == lines[..i] && lines[..n][i] == lines[i];
      BatchPointsPrefix(lines[..n], i, tagKey);
    }
  }

  /**
   * The present cell at position `j` of line `i` is the point at index Rank(bits, j) past the
   * points of the earlier lines.
   */
  lemma BatchPointAt(lines: seq<Line>, i: nat, j: nat, tagKey: string)
    requires forall i :: 0 <= i < |lines| ==> LineShaped(lines[i])
    requires i < |lines| && j < |lines[i].bits| && lines[i].bits[j]
    ensures var l := lines[i];
            Rank(l.bits, j) < |l.values|
            && |BatchPoints(lines[..i], tagKey)| + Rank(l.bits, j) < |BatchPoints(lines, tagKey)|
            && BatchPoints(lines, tagKey)[|BatchPoints(lines[..i], tagKey)| + Rank(l.bits, j)]
               == MakePoint(l.schemas[j], tagKey, l.types[j], l.values[Rank(l.bits, j)], l.times[j])
  {
    var l := lines[i];
    BatchPointsPrefix(lines, i, tagKey);
    LinePointAt(l, |l.bits|, j, tagKey);
    var before := BatchPoints(lines[..i], tagKey);
    var mine := LinePoints(l, |l.bits|, tagKey);
    var all := BatchPoints(lines, tagKey);
    var k := |before| + Rank(l.bits, j);
    assert k < |before + mine| <= |all|;
    assert all[k] == (before + mine)[k] == mine[Rank(l.bits, j)];
  }

  /** The schema of every path, in order. */
  function Schemas(paths: seq<string>, schemaOf: string -> Schema): (r: seq<Schema>)
    ensures |r| == |paths|
    ensures forall j :: 0 <= j < |paths| ==> r[j] == schemaOf(paths[j])
  {
    seq(|paths|, j requires 0 <= j < |paths| => schemaOf(paths[j]))
  }

  /** Row i: the schemas and types of all paths, all at timestamp i. */
  function RowLine(d: DataView, schemas: seq<Schema>, i: nat): (l: Line)
    requires Shaped(d) && IsRowView(d) && i < |d.timestamps| && |schemas| == |d.paths|
    ensures LineShaped(l)
  {
    Line(schemas, d.types, seq(|d.paths|, _ => d.timestamps[i]), d.bitmaps[i], d.values[i])
  }

  /** Column i: the schema and type of path i at every timestamp. */
  function ColumnLine(d: DataView, schema: Schema, i: nat): (l: Line)
    requires Shaped(d) && !IsRowView(d) && i < |d.paths|
    ensures LineShaped(l)
  {
    Line(seq(|d.timestamps|, _ => schema), seq(|d.timestamps|, _ => d.types[i]), d.timestamps, d.bitmaps[i], d.values[i])
  }

  /** The rows or columns of a batch, as lines. */
  function Lines(d: DataView, schemaOf: string -> Schema): (r: seq<Line>)
    requires Shaped(d)
    ensures forall i :: 0 <= i < |r| ==> LineShaped(r[i])
    ensures |r| == |d.bitmaps|
  {
    if IsRowView(d) then
      var schemas := Schemas(d.paths, schemaOf);
      seq(|d.timestamps|, i requires 0 <= i < |d.timestamps| => RowLine(d, schemas, i))
    else
      seq(|d.paths|, i requires 0 <= i < |d.paths| => ColumnLine(d, schemaOf(d.paths[i]), i))
  }

  /** The points an insert writes for a batch. */
  function InsertPoints(d: DataView, schemaOf: string -> Schema, tagKey: string): seq<Point>
    requires Shaped(d)
  {
    BatchPoints(Lines(d, schemaOf), tagKey)
  }

  /**
   * Row-oriented: the cell of timestamp i and path j, when present, is a point of path j's
   * schema and type at timestamp i reading value index Rank(bitmaps[i], j) of row i.
   */
  lemma RowCellPoint(d: DataView, schemaOf: string -> Schema, tagKey: string, i: nat, j: nat)
    requires Shaped(d) && IsRowView(d)
    requires i < |d.timestamps| && j < |d.paths| && d.bitmaps[i][j]
    ensures var lines := Lines(d, schemaOf);
            var k := |BatchPoints(lines[..i], tagKey)| + Rank(d.bitmaps[i], j);
            Rank(d.bitmaps[i], j) < |d.values[i]| && k < |InsertPoints(d, schemaOf, tagKey)|
            && InsertPoints(d, schemaOf, tagKey)[k]
               == MakePoint(schemaOf(d.paths[j]), tagKey, d.types[j], d.values[i][Rank(d.bitmaps[i], j)], d.timestamps[i])
  {
    BatchPointAt(Lines(d, schemaOf), i, j, tagKey);
  }

  /**
   * Column-oriented: the cell of path i and timestamp j, when present, is a point of path i's
   * schema and type at timestamp j reading value index Rank(bitmaps[i], j) of column i.
   */
  lemma ColumnCellPoint(d: DataView, schemaOf: string -> Schema, tagKey: string, i: nat, j: nat)
    requires Shaped(d) && !IsRowView(d)
    requires i < |d.paths| && j < |d.timestamps| && d.bitmaps[i][j]
    ensures var lines := Lines(d, schemaOf);
            var k := |BatchPoints(lines[..i], tagKey)| + Rank(d.bitmaps[i], j);
            Rank(d.bitmaps[i], j) < |d.values[i]| && k < |InsertPoints(d, schemaOf, tagKey)|
            && InsertPoints(d, schemaOf, tagKey)[k]
               == MakePoint(schemaOf(d.paths[i]), tagKey, d.types[i], d.values[i][Rank(d.bitmaps[i], j)], d.timestamps[j])
  {
    ColumnLineAt(d, schemaOf, i, j);
    BatchPointAt(Lines(d, schemaOf), i, j, tagKey);
  }

  /** Line i of a column-oriented batch is column i: path i's schema and type at each timestamp. */
  lemma ColumnLineAt(d: DataView, schemaOf: string -> Schema, i: nat, j: nat)
    requires Shaped(d) && !IsRowView(d)
    requires i < |d.paths| && j < |d.timestamps|
    ensures var l := Lines(d, schemaOf)[i];
            && l.bits == d.bitmaps[i] && l.values == d.values[i] && j < |l.bits|
            && l.schemas[j] == schemaOf(d.paths[i]) && l.types[j] == d.types[i] && l.times[j] == d.timestamps[j]
  {
    assert Lines(d, schemaOf)[i] == ColumnLine(d, schemaOf(d.paths[i]), i);
  }

  /** The cells of a line in order, with the running index of the next value to read. */
  method AppendLine(points: seq<Point>, l: Line, tagKey: string) returns (r: seq<Point>)
    requires LineShaped(l)
    ensures r == points + LinePoints(l, |l.bits|, tagKey)
  {
    r := points;
    var index := 0;
    for j := 0 to |l.bits|
      invariant index == Rank(l.bits, j)
      invariant r == points + LinePoints(l, j, tagKey)
    {
      if l.bits[j] {
        RankMonotone(l.bits, j + 1, |l.bits|);
        r := r + [MakePoint(l.schemas[j], tagKey, l.types[j], l.values[index], l.times[j])];
        index := index + 1;
      }
    }
  }

  /** The points of a row-oriented batch, row by row. */
  method RowPoints(d: DataView, schemaOf: string -> Schema, tagKey: string) returns (points: seq<Point>)
    requires Shaped(d) && IsRowView(d)
    ensures points == InsertPoints(d, schemaOf, tagKey)
  {
    var schemas := Schemas(d.paths, schemaOf);
    ghost var lines := Lines(d, schemaOf);
    points := [];
    for i := 0 to |d.timestamps|
      invariant points == BatchPoints(lines[..i], tagKey)
    {
      assert lines[..i + 1][..i] == lines[..i] && lines[..i + 1][i] == lines[i] == RowLine(d, schemas, i);
      points := AppendLine(points, RowLine(d, schemas, i), tagKey);
    }
    assert lines[..|d.timestamps|] == lines;
  }

  /** The points of a column-oriented batch, column by column. */
  method ColumnPoints(d: DataView, schemaOf: string -> Schema, tagKey: string) returns (points: seq<Point>)
    requires Shaped(d) && !IsRowView(d)
    ensures points == InsertPoints(d, schemaOf, tagKey)
  {
    ghost var lines := Lines(d, schemaOf);
    points := [];
    for i := 0 to |d.paths|
      invariant points == BatchPoints(lines[..i], tagKey)
    {
      var schema := schemaOf(d.paths[i]);
      assert lines[..i + 1][..i] == lines[..i] && lines[..i + 1][i] == lines[i] == ColumnLine(d, schema, i);
      points := AppendLine(points, ColumnLine(d, schema, i), tagKey);
    }
    assert lines[..|d.paths|] == lines;
  }
}
