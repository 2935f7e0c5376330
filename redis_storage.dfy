/**
 * The Redis storage adapter. Within a storage unit, path `p` keeps its cells in the hash
 * "values:<unit>:<p>" (field = key text, value = cell text) and its keys in the sorted set
 * "keys:<unit>:<p>" (member = key text, score = the key); the hash "data:type" maps every
 * path to the name of its type.
 */
module RedisAdapter {
  import opened Wrappers
  import opened Shared
  import opened Strings
  import opened RedisColumns
  import opened RedisServer

  const DATA_TYPE_KEY := "data:type"
  const KEY_SPLIT := ':'
  const STAR := '*'
  const TAG_SUFFIX := "*"
  const SUFFIX_KEY := ".key"
  const SUFFIX_VALUE := ".value"

  /** Redis keeps at most 2^32 - 1 elements in one list, set, sorted set or hash. */
  const MAX_ELEMENTS := 0xFFFF_FFFF

  function ValuesKey(unit: string, path: string): string
  {
    "values:" + unit + ":" + path
  }

  function ScoresKey(unit: string, path: string): string
  {
    "keys:" + unit + ":" + path
  }

  /** The three kinds of key never collide, and within one unit each path has its own keys. */
  lemma KeysDistinct(unit: string, p: string, q: string)
    ensures ValuesKey(unit, p) != ScoresKey(unit, q)
    ensures ValuesKey(unit, p) != DATA_TYPE_KEY && ScoresKey(unit, p) != DATA_TYPE_KEY
    ensures ValuesKey(unit, p) == ValuesKey(unit, q) ==> p == q
    ensures ScoresKey(unit, p) == ScoresKey(unit, q) ==> p == q
  {
    assert ValuesKey(unit, p)[0] == 'v' && ScoresKey(unit, q)[0] == 'k' && DATA_TYPE_KEY[0] == 'd';
    assert ScoresKey(unit, p)[0] == 'k';
    var n := |"values:" + unit + ":"|;
    assert ValuesKey(unit, p)[n..] == p && ValuesKey(unit, q)[n..] == q;
    var m := |"keys:" + unit + ":"|;
    assert ScoresKey(unit, p)[m..] == p && ScoresKey(unit, q)[m..] == q;
  }

  /** The name a type is stored under in "data:type". */
  function TypeName(t: DataType): string
  {
    match t
    case BOOLEAN => "BOOLEAN"
    case INTEGER => "INTEGER"
    case LONG => "LONG"
    case FLOAT => "FLOAT"
    case DOUBLE => "DOUBLE"
    case BINARY => "BINARY"
  }

  /** Reads a stored type name back; anything else reads as no type (Java's null). */
  function ParseTypeName(s: string): (r: Option<DataType>)
    ensures r.Some? ==> TypeName(r.value) == s
    ensures r.None? ==> forall t :: TypeName(t) != s
  {
    if s == "BOOLEAN" then Some(BOOLEAN)
    else if s == "INTEGER" then Some(INTEGER)
    else if s == "LONG" then Some(LONG)
    else if s == "FLOAT" then Some(FLOAT)
    else if s == "DOUBLE" then Some(DOUBLE)
    else if s == "BINARY" then Some(BINARY)
    else None
  }

  /** Storing a type and reading it back gives the same type. */
  lemma TypeNameRoundTrip(t: DataType)
    ensures ParseTypeName(TypeName(t)) == Some(t)
  {
    match t
    case BOOLEAN =>
    case INTEGER => assert TypeName(t) != "BOOLEAN";
    case LONG => assert TypeName(t) != "BOOLEAN" && TypeName(t) != "INTEGER";
    case FLOAT => assert TypeName(t)[0] == 'F';
    case DOUBLE => assert TypeName(t)[0] == 'D';
    case BINARY => assert TypeName(t)[1] == 'I';
  }

  /** The outcome of an adapter operation. */
  datatype TaskResult =
    | Done
    | Rows(columns: seq<Column>)
    | Failed(error: TaskError)

  const INSERT_ERROR := PhysicalError("execute insert in redis error")
  const DELETE_PATH_ERROR := PhysicalError("execute delete path in redis failure")
  const DELETE_DATA_ERROR := PhysicalError("execute delete data in redis failure")
  const QUERY_PATH_ERROR := ExecuteFailure("execute query path task in redis failure")
  const QUERY_HISTORY_ERROR := ExecuteFailure("execute query history task in redis failure")

  /** The two exception kinds an operation may report. */
  datatype TaskError =
    | ExecuteFailure(message: string)
    | PhysicalError(message: string)

  /**
   * One path of an insert batch: its name, type, cells by key text and the keys themselves
   * as scores by key text.
   */
  datatype PathData = PathData(path: string, dataType: DataType, values: map<string, string>, scores: map<string, int>)

  /** Every cell has its key, and every key has its cell. */
  predicate WellFormed(d: PathData)
  {
    d.values.Keys == d.scores.Keys
  }

  /** A sequence of commands stops at the first failure, keeping what ran before it. */
  datatype Applied = Applied(ok: bool, keyspace: Keyspace)

  predicate SubMap<K, V(==)>(a: map<K, V>, b: map<K, V>)
  {
    forall k :: k in a ==> k in b && b[k] == a[k]
  }

  /** The key may receive a hash command. */
  predicate HashOrAbsent(ks: Keyspace, key: string)
  {
    key !in ks || ks[key].HashValue?
  }

  /** The key may receive a sorted-set command. */
  predicate ZSetOrAbsent(ks: Keyspace, key: string)
  {
    key !in ks || ks[key].ZSetValue?
  }

  /** The cells, keys and type of `d` are all in the keyspace. */
  ghost predicate Stored(ks: Keyspace, unit: string, d: PathData)
  {
    && SubMap(d.values, FieldsAt(ks, ValuesKey(unit, d.path)))
    && SubMap(d.scores, ScoresAt(ks, ScoresKey(unit, d.path)))
    && d.path in FieldsAt(ks, DATA_TYPE_KEY)
    && FieldsAt(ks, DATA_TYPE_KEY)[d.path] == TypeName(d.dataType)
  }

  /** The cells of a path and its keys name the same members. */
  ghost predicate Paired(ks: Keyspace, unit: string, path: string)
  {
    FieldsAt(ks, ValuesKey(unit, path)).Keys == ScoresAt(ks, ScoresKey(unit, path)).Keys
  }

  /** Inserting one path: HSET of the cells, ZADD of the keys, then HSET of the type. */
  function InsertPath(ks: Keyspace, unit: string, d: PathData): Applied
  {
    WriteThree(ks, ValuesKey(unit, d.path), ScoresKey(unit, d.path), DATA_TYPE_KEY, d.path, TypeName(d.dataType), d.values, d.scores)
  }

  /** HSET of `values` at `vk`, ZADD of `scores` at `sk`, then HSET of the one field `field` at `tk`. */
  function WriteThree(ks: Keyspace, vk: string, sk: string, tk: string, field: string, name: string,
                      values: map<string, string>, scores: map<string, int>): Applied
  {
    var h := HSet(ks, vk, values);
    if h.Failure? then Applied(false, ks)
    else
      var z := ZAdd(h.value, sk, scores);
      if z.Failure? then Applied(false, h.value)
      else
        var t := HSet(z.value, tk, map[field := name]);
        if t.Failure? then Applied(false, z.value) else Applied(true, t.value)
  }

  /** The three commands all succeed exactly when each key holds the right type and there is something to write. */
  lemma WriteThreeOk(ks: Keyspace, vk: string, sk: string, tk: string, field: string, name: string,
                     values: map<string, string>, scores: map<string, int>)
    requires vk != sk && vk != tk && sk != tk
    ensures var r := WriteThree(ks, vk, sk, tk, field, name, values, scores);
      r.ok <==> values != map[] && scores != map[] && HashOrAbsent(ks, vk) && ZSetOrAbsent(ks, sk) && HashOrAbsent(ks, tk)
  {
    assert field in map[field := name];
    var h := HSet(ks, vk, values);
    if h.Success? {
      var v := HashValue(FieldsAt(ks, vk) + values);
      assert h.value == ks[vk := v];
      OtherKeyUnchanged(ks, vk, v, sk);
      OtherKeyUnchanged(ks, vk, v, tk);
      var z := ZAdd(h.value, sk, scores);
      if z.Success? {
        var w := ZSetValue(ScoresAt(h.value, sk) + scores);
        assert z.value == h.value[sk := w];
        OtherKeyUnchanged(h.value, sk, w, tk);
      }
    }
  }

  /** When all three succeed, each key holds its old contents merged with what was written. */
  lemma WriteThreeResult(ks: Keyspace, vk: string, sk: string, tk: string, field: string, name: string,
                         values: map<string, string>, scores: map<string, int>)
    requires vk != sk && vk != tk && sk != tk
    requires values != map[] && scores != map[] && HashOrAbsent(ks, vk) && ZSetOrAbsent(ks, sk) && HashOrAbsent(ks, tk)
    ensures WriteThree(ks, vk, sk, tk, field, name, values, scores).keyspace ==
              ks[vk := HashValue(FieldsAt(ks, vk) + values)]
                [sk := ZSetValue(ScoresAt(ks, sk) + scores)]
                [tk := HashValue(FieldsAt(ks, tk) + map[field := name])]
  {
    assert field in map[field := name];
    var h := ks[vk := HashValue(FieldsAt(ks, vk) + values)];
    assert HSet(ks, vk, values) == Success(h);
    OtherKeyUnchanged(ks, vk, HashValue(FieldsAt(ks, vk) + values), sk);
    OtherKeyUnchanged(ks, vk, HashValue(FieldsAt(ks, vk) + values), tk);
    var z := h[sk := ZSetValue(ScoresAt(ks, sk) + scores)];
    assert ZAdd(h, sk, scores) == Success(z);
    OtherKeyUnchanged(h, sk, ZSetValue(ScoresAt(ks, sk) + scores), tk);
    assert HSet(z, tk, map[field := name]) == Success(z[tk := HashValue(FieldsAt(ks, tk) + map[field := name])]);
  }

  /** Writing one key leaves what every other key holds. */
  lemma OtherKeyUnchanged(ks: Keyspace, k: string, v: Value, other: string)
    requires k != other
    ensures FieldsAt(ks[k := v], other) == FieldsAt(ks, other)
    ensures ScoresAt(ks[k := v], other) == ScoresAt(ks, other)
    ensures (other in ks[k := v]) == (other in ks)
    ensures other in ks ==> ks[k := v][other] == ks[other]
  {
  }

  lemma WriteThreeFrame(ks: Keyspace, vk: string, sk: string, tk: string, field: string, name: string,
                         values: map<string, string>, scores: map<string, int>)
    requires vk != sk && vk != tk && sk != tk
    ensures SameExcept(ks, WriteThree(ks, vk, sk, tk, field, name, values, scores).keyspace, {vk, sk, tk})
  {
    var r := WriteThree(ks, vk, sk, tk, field, name, values, scores).keyspace;
    var h := HSet(ks, vk, values);
    if h.Success? {
      var h1 := h.value;
      assert h1 == ks[vk := HashValue(FieldsAt(ks, vk) + values)];
      var z := ZAdd(h1, sk, scores);
      if z.Success? {
        var z1 := z.value;
        assert z1 == h1[sk := ZSetValue(ScoresAt(h1, sk) + scores)];
        var t := HSet(z1, tk, map[field := name]);
        if t.Success? {
          assert r == z1[tk := HashValue(FieldsAt(z1, tk) + map[field := name])];
        }
      }
    }
  }

  /**
   * Inserting a path succeeds exactly when the batch has cells and keys for it and its three
   * keys hold the right types; it then stores them and touches no other key.
   */
  lemma InsertPathEffect(ks: Keyspace, unit: string, d: PathData)
    ensures var r := InsertPath(ks, unit, d);
      r.ok <==> d.values != map[] && d.scores != map[] && HashOrAbsent(ks, ValuesKey(unit, d.path))
                && ZSetOrAbsent(ks, ScoresKey(unit, d.path)) && HashOrAbsent(ks, DATA_TYPE_KEY)
    ensures var r := InsertPath(ks, unit, d);
      r.ok ==>
        && Stored(r.keyspace, unit, d)
        && FieldsAt(r.keyspace, ValuesKey(unit, d.path)) == FieldsAt(ks, ValuesKey(unit, d.path)) + d.values
        && ScoresAt(r.keyspace, ScoresKey(unit, d.path)) == ScoresAt(ks, ScoresKey(unit, d.path)) + d.scores
        && FieldsAt(r.keyspace, DATA_TYPE_KEY) == FieldsAt(ks, DATA_TYPE_KEY) + map[d.path := TypeName(d.dataType)]
    ensures SameExcept(ks, InsertPath(ks, unit, d).keyspace, {ValuesKey(unit, d.path), ScoresKey(unit, d.path), DATA_TYPE_KEY})
  {
    var vk, sk := ValuesKey(unit, d.path), ScoresKey(unit, d.path);
    KeysDistinct(unit, d.path, d.path);
    var name := TypeName(d.dataType);
    WriteThreeOk(ks, vk, sk, DATA_TYPE_KEY, d.path, name, d.values, d.scores);
    WriteThreeFrame(ks, vk, sk, DATA_TYPE_KEY, d.path, name, d.values, d.scores);
    if InsertPath(ks, unit, d).ok {
      WriteThreeResult(ks, vk, sk, DATA_TYPE_KEY, d.path, name, d.values, d.scores);
      var fv := HashValue(FieldsAt(ks, vk) + d.values);
      var ss := ZSetValue(ScoresAt(ks, sk) + d.scores);
      var ft := HashValue(FieldsAt(ks, DATA_TYPE_KEY) + map[d.path := name]);
      var h := ks[vk := fv];
      var z := h[sk := ss];
      var r := z[DATA_TYPE_KEY := ft];
      OtherKeyUnchanged(h, sk, ss, vk);
      OtherKeyUnchanged(z, DATA_TYPE_KEY, ft, vk);
      OtherKeyUnchanged(z, DATA_TYPE_KEY, ft, sk);
      assert FieldsAt(r, vk) == fv.fields;
      assert ScoresAt(r, sk) == ss.scores;
      assert FieldsAt(r, DATA_TYPE_KEY) == ft.fields;
    }
  }

  /** The whole batch, path after path, stopping at the first path that fails. */
  function InsertBatch(ks: Keyspace, unit: string, batch: seq<PathData>): (r: Applied)
    ensures forall k :: k in ks ==> k in r.keyspace
    decreases |batch|
  {
    if batch == [] then Applied(true, ks)
    else
      var a := InsertBatch(ks, unit, batch[..|batch| - 1]);
      if !a.ok then a else InsertPath(a.keyspace, unit, batch[|batch| - 1])
  }

  /** Once a prefix of the batch fails, the rest of the batch changes nothing. */
  lemma {:induction false} InsertBatchStops(ks: Keyspace, unit: string, batch: seq<PathData>, i: nat)
    requires i <= |batch|
    requires !InsertBatch(ks, unit, batch[..i]).ok
    ensures InsertBatch(ks, unit, batch) == InsertBatch(ks, unit, batch[..i])
    decreases |batch| - i
  {
    if i < |batch| {
      assert batch[..|batch| - 1][..i] == batch[..i];
      InsertBatchStops(ks, unit, batch[..|batch| - 1], i);
    } else {
      assert batch[..i] == batch;
    }
  }

  /** The keys of a path that no later path of the batch names. */
  ghost predicate LastOccurrence(batch: seq<PathData>, i: int)
    requires 0 <= i < |batch|
  {
    forall j :: i < j < |batch| ==> batch[j].path != batch[i].path
  }

  lemma InsertPathStores(ks: Keyspace, unit: string, d: PathData)
    requires InsertPath(ks, unit, d).ok
    ensures Stored(InsertPath(ks, unit, d).keyspace, unit, d)
  {
    InsertPathEffect(ks, unit, d);
  }

  /** A later path of the batch leaves what an earlier, different path stored in place. */
  lemma InsertPathKeepsStored(ks: Keyspace, unit: string, d: PathData, e: PathData)
    requires Stored(ks, unit, d) && d.path != e.path
    requires InsertPath(ks, unit, e).ok
    ensures Stored(InsertPath(ks, unit, e).keyspace, unit, d)
  {
    KeysDistinct(unit, d.path, e.path);
    KeysDistinct(unit, e.path, d.path);
    InsertPathEffect(ks, unit, e);
    var after := InsertPath(ks, unit, e).keyspace;
    assert FieldsAt(after, ValuesKey(unit, d.path)) == FieldsAt(ks, ValuesKey(unit, d.path));
    assert ScoresAt(after, ScoresKey(unit, d.path)) == ScoresAt(ks, ScoresKey(unit, d.path));
  }

  /** After a successful batch, the last write of every path is in the keyspace. */
  lemma {:induction false} InsertBatchStoresLast(ks: Keyspace, unit: string, batch: seq<PathData>)
    requires InsertBatch(ks, unit, batch).ok
    ensures forall i :: 0 <= i < |batch| && LastOccurrence(batch, i) ==>
              Stored(InsertBatch(ks, unit, batch).keyspace, unit, batch[i])
  {
    if batch != [] {
      var n := |batch| - 1;
      var a := InsertBatch(ks, unit, batch[..n]);
      assert a.ok && InsertBatch(ks, unit, batch) == InsertPath(a.keyspace, unit, batch[n]);
      var after := InsertPath(a.keyspace, unit, batch[n]).keyspace;
      InsertBatchStoresLast(ks, unit, batch[..n]);
      InsertPathStores(a.keyspace, unit, batch[n]);
      forall d | Stored(a.keyspace, unit, d) && d.path != batch[n].path
        ensures Stored(after, unit, d)
      {
        InsertPathKeepsStored(a.keyspace, unit, d, batch[n]);
      }
      StoredAfterLast(a.keyspace, after, unit, batch, batch[..n]);
    }
  }

  /** The step of the induction above, stated over the keyspaces before and after the last path. */
  lemma StoredAfterLast(before: Keyspace, after: Keyspace, unit: string, batch: seq<PathData>, pre: seq<PathData>)
    requires batch != [] && pre == batch[..|batch| - 1]
    requires forall i :: 0 <= i < |pre| && LastOccurrence(pre, i) ==> Stored(before, unit, pre[i])
    requires Stored(after, unit, batch[|batch| - 1])
    requires forall d :: Stored(before, unit, d) && d.path != batch[|batch| - 1].path ==> Stored(after, unit, d)
    ensures forall i :: 0 <= i < |batch| && LastOccurrence(batch, i) ==> Stored(after, unit, batch[i])
  {
    var n := |batch| - 1;
    forall i | 0 <= i < |batch| && LastOccurrence(batch, i)
      ensures Stored(after, unit, batch[i])
    {
      if i < n {
        assert pre[i] == batch[i];
        assert LastOccurrence(pre, i);
      }
    }
  }

  /** Inserting a well-formed path keeps every path's cells and keys naming the same members. */
  lemma InsertPathKeepsPaired(ks: Keyspace, unit: string, d: PathData, q: string)
    requires WellFormed(d) && InsertPath(ks, unit, d).ok
    requires Paired(ks, unit, q)
    ensures Paired(InsertPath(ks, unit, d).keyspace, unit, q)
  {
    KeysDistinct(unit, q, d.path);
    KeysDistinct(unit, d.path, q);
    InsertPathEffect(ks, unit, d);
    var after := InsertPath(ks, unit, d).keyspace;
    if q == d.path {
      var f := FieldsAt(ks, ValuesKey(unit, q));
      var z := ScoresAt(ks, ScoresKey(unit, q));
      assert (f + d.values).Keys == f.Keys + d.values.Keys;
      assert (z + d.scores).Keys == z.Keys + d.scores.Keys;
    } else {
      assert FieldsAt(after, ValuesKey(unit, q)) == FieldsAt(ks, ValuesKey(unit, q));
      assert ScoresAt(after, ScoresKey(unit, q)) == ScoresAt(ks, ScoresKey(unit, q));
    }
  }

  /** A successful batch of well-formed paths keeps every path paired. */
  lemma {:induction false} InsertBatchKeepsPaired(ks: Keyspace, unit: string, batch: seq<PathData>, q: string)
    requires forall i :: 0 <= i < |batch| ==> WellFormed(batch[i])
    requires InsertBatch(ks, unit, batch).ok
    requires Paired(ks, unit, q)
    ensures Paired(InsertBatch(ks, unit, batch).keyspace, unit, q)
  {
    if batch != [] {
      var n := |batch| - 1;
      InsertBatchKeepsPaired(ks, unit, batch[..n], q);
      InsertPathKeepsPaired(InsertBatch(ks, unit, batch[..n]).keyspace, unit, batch[n], q);
    }
  }

  lemma InsertPathOkHasKeys(ks: Keyspace, unit: string, d: PathData)
    requires InsertPath(ks, unit, d).ok
    ensures d.scores != map[]
  {
    var vk, sk := ValuesKey(unit, d.path), ScoresKey(unit, d.path);
    KeysDistinct(unit, d.path, d.path);
    WriteThreeOk(ks, vk, sk, DATA_TYPE_KEY, d.path, TypeName(d.dataType), d.values, d.scores);
  }

  /** Every path of a successful batch had keys to write. */
  lemma {:induction false} InsertBatchOkHasKeys(ks: Keyspace, unit: string, batch: seq<PathData>)
    requires InsertBatch(ks, unit, batch).ok
    ensures forall i :: 0 <= i < |batch| ==> batch[i].scores != map[]
  {
    if batch != [] {
      var n := |batch| - 1;
      var pre := batch[..n];
      var a := InsertBatch(ks, unit, pre);
      assert a.ok && InsertPath(a.keyspace, unit, batch[n]).ok;
      InsertBatchOkHasKeys(ks, unit, pre);
      InsertPathOkHasKeys(a.keyspace, unit, batch[n]);
      AllHaveKeys(batch, pre);
    }
  }

  lemma AllHaveKeys(batch: seq<PathData>, pre: seq<PathData>)
    requires batch != [] && pre == batch[..|batch| - 1]
    requires forall i :: 0 <= i < |pre| ==> pre[i].scores != map[]
    requires batch[|batch| - 1].scores != map[]
    ensures forall i :: 0 <= i < |batch| ==> batch[i].scores != map[]
  {
    forall i | 0 <= i < |batch| ensures batch[i].scores != map[] {
      if i < |pre| {
        assert pre[i] == batch[i];
      }
    }
  }

  // ---------------------------------------------------------------------------------------
  // Finding the paths of a unit

  /** The third piece of a key split on ':', when it has exactly three pieces. */
  function PathOfKey(key: string): (r: Option<string>)
    ensures r.Some? ==> KEY_SPLIT !in r.value && r.value != ""
  {
    var parts := JavaSplit(key, KEY_SPLIT);
    if |parts| == 3 then Some(parts[2]) else None
  }

  /** A path free of ':' is read back from its sorted-set key. */
  lemma KeyRoundTrip(unit: string, path: string)
    requires KEY_SPLIT !in unit && KEY_SPLIT !in path && path != ""
    ensures PathOfKey(ScoresKey(unit, path)) == Some(path)
  {
    var key := ScoresKey(unit, path);
    assert key == "keys" + [':'] + (unit + [':'] + path);
    SplitAllAfterFirst("keys", ':', unit + [':'] + path);
    SplitAllAfterFirst(unit, ':', path);
    SplitAllNoSeparator(path, ':');
    assert SplitAll(key, ':') == ["keys", unit, path];
    assert key[4] == ':';
  }

  /** `x` is the path of some sorted-set key of the unit matching `pattern` followed by `*`. */
  ghost predicate Discovered(ks: Keyspace, unit: string, patterns: seq<string>, x: string)
  {
    exists i, key :: 0 <= i < |patterns| && key in Keys(ks, ScoresKey(unit, patterns[i]) + TAG_SUFFIX) && PathOfKey(key) == Some(x)
  }

  /** The tag filter, when there is one, admits the path. */
  predicate Admitted(tagFilter: Option<string -> bool>, x: string)
  {
    tagFilter.None? || tagFilter.value(x)
  }

  /** The paths a pattern list and tag filter select; none when the server cannot be reached. */
  ghost predicate DeterminedPaths(ks: Keyspace, reachable: bool, unit: string, patterns: seq<string>,
                                  tagFilter: Option<string -> bool>, paths: seq<string>)
  {
    && (!reachable ==> paths == [])
    && (reachable ==> forall x :: x in paths <==> Discovered(ks, unit, patterns, x) && Admitted(tagFilter, x))
  }

  /** A stored path free of ':' is found again by a pattern equal to it. */
  lemma StoredIsDiscovered(ks: Keyspace, unit: string, d: PathData)
    requires Stored(ks, unit, d) && d.scores != map[]
    requires KEY_SPLIT !in unit && KEY_SPLIT !in d.path && d.path != ""
    ensures Discovered(ks, unit, [d.path], d.path)
  {
    var key := ScoresKey(unit, d.path);
    var m :| m in d.scores;
    assert m in ScoresAt(ks, key);
    GlobPrefixMatches(key, "");
    assert key + "" == key;
    assert key in Keys(ks, ScoresKey(unit, [d.path][0]) + TAG_SUFFIX);
    KeyRoundTrip(unit, d.path);
  }

  /** After a successful insert, every inserted path free of ':' is found again. */
  lemma InsertedPathsAreDiscovered(ks: Keyspace, unit: string, batch: seq<PathData>)
    requires InsertBatch(ks, unit, batch).ok
    requires KEY_SPLIT !in unit
    requires forall i :: 0 <= i < |batch| ==> KEY_SPLIT !in batch[i].path && batch[i].path != ""
    ensures forall i :: 0 <= i < |batch| ==>
              Discovered(InsertBatch(ks, unit, batch).keyspace, unit, [batch[i].path], batch[i].path)
  {
    var after := InsertBatch(ks, unit, batch).keyspace;
    InsertBatchStoresLast(ks, unit, batch);
    InsertBatchOkHasKeys(ks, unit, batch);
    forall i | 0 <= i < |batch|
      ensures Discovered(after, unit, [batch[i].path], batch[i].path)
    {
      var j := LastWithPath(batch, i);
      StoredIsDiscovered(after, unit, batch[j]);
    }
  }

  /** The last position of the batch naming the same path as position `i`. */
  lemma LastWithPath(batch: seq<PathData>, i: nat) returns (j: nat)
    requires i < |batch|
    ensures i <= j < |batch| && batch[j].path == batch[i].path && LastOccurrence(batch, j)
    decreases |batch| - i
  {
    if LastOccurrence(batch, i) {
      j := i;
    } else {
      var k :| i < k < |batch| && batch[k].path == batch[i].path;
      j := LastWithPath(batch, k);
    }
  }

  // ---------------------------------------------------------------------------------------
  // Deleting

  /** The values and sorted-set keys of the paths. */
  function PathKeys(unit: string, paths: seq<string>): set<string>
  {
    (set p | p in paths :: ValuesKey(unit, p)) + (set p | p in paths :: ScoresKey(unit, p))
  }

  /** Deleting whole paths: DEL of both keys of every path, then HDEL of their types. */
  function DeleteAll(ks: Keyspace, unit: string, paths: seq<string>): (r: Applied)
    ensures forall k :: k in r.keyspace ==> k in ks
  {
    var removed := Del(ks, PathKeys(unit, paths));
    var h := HDel(removed, DATA_TYPE_KEY, set p | p in paths);
    if h.Failure? then Applied(false, removed) else Applied(true, h.value)
  }

  /**
   * Deleting whole paths removes both keys of each and its type entry, and nothing else; it
   * fails, after the DEL, only when "data:type" holds something other than a hash.
   */
  lemma DeleteAllEffect(ks: Keyspace, unit: string, paths: seq<string>)
    ensures var r := DeleteAll(ks, unit, paths);
      && (r.ok <==> HashOrAbsent(ks, DATA_TYPE_KEY))
      && (forall p :: p in paths ==> ValuesKey(unit, p) !in r.keyspace && ScoresKey(unit, p) !in r.keyspace)
      && (r.ok ==> FieldsAt(r.keyspace, DATA_TYPE_KEY) == FieldsAt(ks, DATA_TYPE_KEY) - (set p | p in paths))
      && SameExcept(ks, r.keyspace, PathKeys(unit, paths) + {DATA_TYPE_KEY})
  {
    var keys := PathKeys(unit, paths);
    var removed := Del(ks, keys);
    forall p | p in paths ensures ValuesKey(unit, p) != DATA_TYPE_KEY && ScoresKey(unit, p) != DATA_TYPE_KEY {
      KeysDistinct(unit, p, p);
    }
    assert DATA_TYPE_KEY !in keys;
    assert FieldsAt(removed, DATA_TYPE_KEY) == FieldsAt(ks, DATA_TYPE_KEY);
  }

  /** Deleting whole paths keeps every path paired. */
  lemma DeleteAllKeepsPaired(ks: Keyspace, unit: string, paths: seq<string>, q: string)
    requires Paired(ks, unit, q)
    ensures Paired(DeleteAll(ks, unit, paths).keyspace, unit, q)
  {
    DeleteAllEffect(ks, unit, paths);
    var r := DeleteAll(ks, unit, paths).keyspace;
    KeysDistinct(unit, q, q);
    if q in paths {
      assert FieldsAt(r, ValuesKey(unit, q)) == map[];
      assert ScoresAt(r, ScoresKey(unit, q)) == map[];
    } else {
      forall p | p in paths ensures ValuesKey(unit, q) != ValuesKey(unit, p) && ValuesKey(unit, q) != ScoresKey(unit, p)
                                 && ScoresKey(unit, q) != ValuesKey(unit, p) && ScoresKey(unit, q) != ScoresKey(unit, p) {
        KeysDistinct(unit, q, p);
        KeysDistinct(unit, p, q);
      }
      assert FieldsAt(r, ValuesKey(unit, q)) == FieldsAt(ks, ValuesKey(unit, q));
      assert ScoresAt(r, ScoresKey(unit, q)) == ScoresAt(ks, ScoresKey(unit, q));
    }
  }

  /** One path and one key range of a ranged delete. */
  datatype DeleteStep = DeleteStep(path: string, range: KeyRange)

  /**
   * One step of a ranged delete: ZRANGEBYSCORE over the actual bounds of the range; when it
   * finds members, HDEL of those cells and ZREMRANGEBYSCORE of those keys.
   */
  function DeleteRange(ks: Keyspace, unit: string, step: DeleteStep): Applied
  {
    ClearRange(ks, ValuesKey(unit, step.path), ScoresKey(unit, step.path), step.range.actualBeginKey, step.range.actualEndKey)
  }

  /** A range step removes cells and members, and never adds a key. */
  function ClearRange(ks: Keyspace, vk: string, sk: string, lo: int, hi: int): (r: Applied)
    ensures forall k :: k in r.keyspace ==> k in ks
  {
    var members := ZRangeByScore(ks, sk, lo, hi);
    if members.Failure? then Applied(false, ks)
    else if members.value == {} then Applied(true, ks)
    else
      var h := HDel(ks, vk, members.value);
      if h.Failure? then Applied(false, ks)
      else
        var z := ZRemRangeByScore(h.value, sk, lo, hi);
        if z.Failure? then Applied(false, h.value) else Applied(true, z.value)
  }

  /** Removing the in-range members from the keys leaves the out-of-range ones. */
  lemma OutOfRangeKeys(scores: map<string, int>, lo: int, hi: int)
    ensures OutOfRange(scores, lo, hi).Keys == scores.Keys - InRange(scores, lo, hi)
  {
  }

  /**
   * A range step succeeds exactly when the sorted set may be read and, if it has members in
   * range, the values key may receive HDEL; it then drops those members from both keys.
   */
  lemma ClearRangeEffect(ks: Keyspace, vk: string, sk: string, lo: int, hi: int)
    requires vk != sk
    ensures var r := ClearRange(ks, vk, sk, lo, hi);
      && (r.ok <==> ZSetOrAbsent(ks, sk) && (InRange(ScoresAt(ks, sk), lo, hi) == {} || HashOrAbsent(ks, vk)))
      && (r.ok ==> ScoresAt(r.keyspace, sk) == OutOfRange(ScoresAt(ks, sk), lo, hi))
      && (r.ok ==> FieldsAt(r.keyspace, vk) == FieldsAt(ks, vk) - InRange(ScoresAt(ks, sk), lo, hi))
  {
    var m := InRange(ScoresAt(ks, sk), lo, hi);
    var r := ClearRange(ks, vk, sk, lo, hi);
    if ZSetOrAbsent(ks, sk) {
      if m == {} {
        var z := ScoresAt(ks, sk);
        forall x | x in z ensures x in OutOfRange(z, lo, hi) {
          assert x !in m;
        }
        assert OutOfRange(z, lo, hi) == z;
        assert FieldsAt(ks, vk) - m == FieldsAt(ks, vk);
      } else if HashOrAbsent(ks, vk) {
        var h := HDel(ks, vk, m).value;
        OtherKeyGone(ks, vk, sk, FieldsAt(ks, vk) - m);
        assert ScoresAt(h, sk) == ScoresAt(ks, sk);
        assert sk in h ==> h[sk].ZSetValue?;
        var rest := OutOfRange(ScoresAt(h, sk), lo, hi);
        assert r.keyspace == (if rest == map[] then h - {sk} else h[sk := ZSetValue(rest)]);
        assert FieldsAt(r.keyspace, vk) == FieldsAt(h, vk);
      }
    }
  }

  /** Writing or removing `vk` leaves what `sk` holds. */
  lemma OtherKeyGone(ks: Keyspace, vk: string, sk: string, rest: map<string, string>)
    requires vk != sk
    ensures ScoresAt(ks - {vk}, sk) == ScoresAt(ks, sk) && ScoresAt(ks[vk := HashValue(rest)], sk) == ScoresAt(ks, sk)
    ensures (sk in ks - {vk}) == (sk in ks) && (sk in ks[vk := HashValue(rest)]) == (sk in ks)
    ensures sk in ks ==> (ks - {vk})[sk] == ks[sk] && ks[vk := HashValue(rest)][sk] == ks[sk]
  {
  }

  /** A range step changes no key but the two of its path. */
  lemma ClearRangeFrame(ks: Keyspace, vk: string, sk: string, lo: int, hi: int)
    requires vk != sk
    ensures SameExcept(ks, ClearRange(ks, vk, sk, lo, hi).keyspace, {vk, sk})
  {
  }

  /** A range step only ever removes members from a sorted set. */
  lemma ClearRangeShrinks(ks: Keyspace, vk: string, sk: string, lo: int, hi: int, key: string)
    requires vk != sk
    ensures SubMap(ScoresAt(ClearRange(ks, vk, sk, lo, hi).keyspace, key), ScoresAt(ks, key))
  {
    var r := ClearRange(ks, vk, sk, lo, hi);
    ClearRangeEffect(ks, vk, sk, lo, hi);
    ClearRangeFrame(ks, vk, sk, lo, hi);
    if key != sk && key != vk {
      assert ScoresAt(r.keyspace, key) == ScoresAt(ks, key);
    } else if key == vk {
      assert ScoresAt(r.keyspace, key) == map[] || ScoresAt(r.keyspace, key) == ScoresAt(ks, key);
    }
  }

  /** The steps of a ranged delete, each path with each range in turn. */
  function Steps(paths: seq<string>, ranges: seq<KeyRange>): seq<DeleteStep>
    decreases |paths|
  {
    if paths == [] then [] else Steps(paths[..|paths| - 1], ranges) + PathSteps(paths[|paths| - 1], ranges)
  }

  function PathSteps(path: string, ranges: seq<KeyRange>): seq<DeleteStep>
  {
    seq(|ranges|, j requires 0 <= j < |ranges| => DeleteStep(path, ranges[j]))
  }

  /** A ranged delete, step after step, stopping at the first step that fails. */
  function DeleteRanges(ks: Keyspace, unit: string, steps: seq<DeleteStep>): (r: Applied)
    ensures forall k :: k in r.keyspace ==> k in ks
    decreases |steps|
  {
    if steps == [] then Applied(true, ks)
    else
      var a := DeleteRanges(ks, unit, steps[..|steps| - 1]);
      if !a.ok then a else DeleteRange(a.keyspace, unit, steps[|steps| - 1])
  }

  /** Once a prefix of the steps fails, the remaining steps change nothing. */
  lemma {:induction false} DeleteRangesStops(ks: Keyspace, unit: string, steps: seq<DeleteStep>, i: nat)
    requires i <= |steps|
    requires !DeleteRanges(ks, unit, steps[..i]).ok
    ensures DeleteRanges(ks, unit, steps) == DeleteRanges(ks, unit, steps[..i])
    decreases |steps| - i
  {
    if i < |steps| {
      assert steps[..|steps| - 1][..i] == steps[..i];
      DeleteRangesStops(ks, unit, steps[..|steps| - 1], i);
    } else {
      assert steps[..i] == steps;
    }
  }

  /** No key of the path is left inside the range. */
  ghost predicate Cleared(ks: Keyspace, unit: string, step: DeleteStep)
  {
    InRange(ScoresAt(ks, ScoresKey(unit, step.path)), step.range.actualBeginKey, step.range.actualEndKey) == {}
  }

  lemma DeleteRangeClears(ks: Keyspace, unit: string, step: DeleteStep)
    requires DeleteRange(ks, unit, step).ok
    ensures Cleared(DeleteRange(ks, unit, step).keyspace, unit, step)
  {
    KeysDistinct(unit, step.path, step.path);
    var lo, hi := step.range.actualBeginKey, step.range.actualEndKey;
    ClearRangeEffect(ks, ValuesKey(unit, step.path), ScoresKey(unit, step.path), lo, hi);
    var z := ScoresAt(ks, ScoresKey(unit, step.path));
    assert InRange(OutOfRange(z, lo, hi), lo, hi) == {};
  }

  /** A step keeps every earlier step's range clear, since it only removes members. */
  lemma DeleteRangeKeepsCleared(ks: Keyspace, unit: string, step: DeleteStep, earlier: DeleteStep)
    requires Cleared(ks, unit, earlier)
    ensures Cleared(DeleteRange(ks, unit, step).keyspace, unit, earlier)
  {
    KeysDistinct(unit, step.path, step.path);
    var key := ScoresKey(unit, earlier.path);
    ClearRangeShrinks(ks, ValuesKey(unit, step.path), ScoresKey(unit, step.path), step.range.actualBeginKey, step.range.actualEndKey, key);
    var before, after := ScoresAt(ks, key), ScoresAt(DeleteRange(ks, unit, step).keyspace, key);
    var lo, hi := earlier.range.actualBeginKey, earlier.range.actualEndKey;
    forall x | x in InRange(after, lo, hi) ensures x in InRange(before, lo, hi) {
    }
  }

  /** After a successful ranged delete, no path keeps a key inside any of the ranges. */
  lemma {:induction false} DeleteRangesClears(ks: Keyspace, unit: string, steps: seq<DeleteStep>)
    requires DeleteRanges(ks, unit, steps).ok
    ensures forall i :: 0 <= i < |steps| ==> Cleared(DeleteRanges(ks, unit, steps).keyspace, unit, steps[i])
  {
    if steps != [] {
      var n := |steps| - 1;
      var pre := steps[..n];
      var a := DeleteRanges(ks, unit, pre);
      assert a.ok && DeleteRanges(ks, unit, steps) == DeleteRange(a.keyspace, unit, steps[n]);
      var after := DeleteRange(a.keyspace, unit, steps[n]).keyspace;
      DeleteRangesClears(ks, unit, pre);
      DeleteRangeClears(a.keyspace, unit, steps[n]);
      forall e | Cleared(a.keyspace, unit, e) ensures Cleared(after, unit, e) {
        DeleteRangeKeepsCleared(a.keyspace, unit, steps[n], e);
      }
      ClearedAfterLast(a.keyspace, after, unit, steps, pre);
    }
  }

  lemma ClearedAfterLast(before: Keyspace, after: Keyspace, unit: string, steps: seq<DeleteStep>, pre: seq<DeleteStep>)
    requires steps != [] && pre == steps[..|steps| - 1]
    requires forall i :: 0 <= i < |pre| ==> Cleared(before, unit, pre[i])
    requires Cleared(after, unit, steps[|steps| - 1])
    requires forall e :: Cleared(before, unit, e) ==> Cleared(after, unit, e)
    ensures forall i :: 0 <= i < |steps| ==> Cleared(after, unit, steps[i])
  {
    forall i | 0 <= i < |steps| ensures Cleared(after, unit, steps[i]) {
      if i < |pre| {
        assert pre[i] == steps[i];
      }
    }
  }

  /** A range step keeps every path's cells and keys naming the same members. */
  lemma DeleteRangeKeepsPaired(ks: Keyspace, unit: string, step: DeleteStep, q: string)
    requires DeleteRange(ks, unit, step).ok && Paired(ks, unit, q)
    ensures Paired(DeleteRange(ks, unit, step).keyspace, unit, q)
  {
    var vk, sk := ValuesKey(unit, step.path), ScoresKey(unit, step.path);
    var lo, hi := step.range.actualBeginKey, step.range.actualEndKey;
    var r := DeleteRange(ks, unit, step).keyspace;
    KeysDistinct(unit, step.path, step.path);
    KeysDistinct(unit, q, step.path);
    KeysDistinct(unit, step.path, q);
    ClearRangeEffect(ks, vk, sk, lo, hi);
    ClearRangeFrame(ks, vk, sk, lo, hi);
    if q == step.path {
      var m := InRange(ScoresAt(ks, sk), lo, hi);
      OutOfRangeKeys(ScoresAt(ks, sk), lo, hi);
      assert (FieldsAt(ks, vk) - m).Keys == FieldsAt(ks, vk).Keys - m;
    } else {
      assert FieldsAt(r, ValuesKey(unit, q)) == FieldsAt(ks, ValuesKey(unit, q));
      assert ScoresAt(r, ScoresKey(unit, q)) == ScoresAt(ks, ScoresKey(unit, q));
    }
  }

  /** A successful ranged delete keeps every path paired. */
  lemma {:induction false} DeleteRangesKeepsPaired(ks: Keyspace, unit: string, steps: seq<DeleteStep>, q: string)
    requires DeleteRanges(ks, unit, steps).ok && Paired(ks, unit, q)
    ensures Paired(DeleteRanges(ks, unit, steps).keyspace, unit, q)
  {
    if steps != [] {
      var n := |steps| - 1;
      var a := DeleteRanges(ks, unit, steps[..n]);
      assert a.ok && DeleteRanges(ks, unit, steps) == DeleteRange(a.keyspace, unit, steps[n]);
      DeleteRangesKeepsPaired(ks, unit, steps[..n], q);
      DeleteRangeKeepsPaired(a.keyspace, unit, steps[n], q);
    }
  }

  // ---------------------------------------------------------------------------------------
  // Reading

  /** The type recorded for a path: HGET of "data:type", read back as a type. */
  function RecordedType(ks: Keyspace, path: string): Result<Option<DataType>>
  {
    var t := HGet(ks, DATA_TYPE_KEY, path);
    if t.Failure? then Failure(t.error)
    else if t.value.None? then Success(None)
    else Success(ParseTypeName(t.value.value))
  }

  /** Reading the path raises no error. */
  predicate Readable(ks: Keyspace, unit: string, path: string)
  {
    RecordedType(ks, path).Success?
    && (RecordedType(ks, path).value.Some? ==> HGetAll(ks, ValuesKey(unit, path)).Success?)
  }

  /**
   * The columns of a query, path after path: one column for each path with a recorded type,
   * holding that type and the path's cells; an error on any path fails the whole query.
   */
  function ProjectColumns(ks: Keyspace, unit: string, paths: seq<string>): (r: Result<seq<Column>>)
    decreases |paths|
    ensures r.Success? <==> forall i :: 0 <= i < |paths| ==> Readable(ks, unit, paths[i])
    ensures r.Success? ==> |r.value| <= |paths|
    ensures r.Success? ==> forall c :: c in r.value ==>
              c.pathName in paths && RecordedType(ks, c.pathName) == Success(Some(c.dataType))
              && c.data == FieldsAt(ks, ValuesKey(unit, c.pathName))
    ensures r.Success? ==> forall i :: 0 <= i < |paths| && RecordedType(ks, paths[i]).value.Some? ==>
              exists c :: c in r.value && c.pathName == paths[i]
  {
    if paths == [] then Success([])
    else
      var n := |paths| - 1;
      var prev := ProjectColumns(ks, unit, paths[..n]);
      assert forall i :: 0 <= i < n ==> paths[..n][i] == paths[i];
      var p := paths[n];
      var t := RecordedType(ks, p);
      if prev.Failure? then prev
      else if t.Failure? then Failure(t.error)
      else if t.value.None? then prev
      else
        var f := HGetAll(ks, ValuesKey(unit, p));
        if f.Failure? then Failure(f.error)
        else
          var c := Column(p, t.value.value, f.value);
          assert c in prev.value + [c];
          Success(prev.value + [c])
  }

  /** `x` is one of the keys a history query over `patterns` asks for. */
  ghost predicate Queried(ks: Keyspace, patterns: seq<string>, x: string)
  {
    exists i :: 0 <= i < |patterns| && QueriedBy(ks, patterns[i], x)
  }

  /** A pattern without `*` names its key; a pattern with `*` names the keys that match it. */
  ghost predicate QueriedBy(ks: Keyspace, pattern: string, x: string)
  {
    if STAR in pattern then x in ks && GlobMatch(pattern, x) else x == pattern
  }

  /** Cell "i" holds `items[i]`, and there is no other cell. */
  ghost predicate ListCells(c: Column, name: string, items: seq<string>)
  {
    && c.pathName == name && c.dataType == BINARY
    && c.data.Keys == IndexKeys(|items|)
    && forall i :: 0 <= i < |items| ==> c.data[NatToString(i)] == items[i]
  }

  /** One cell per member, the cells holding exactly the members. */
  ghost predicate SetCells(c: Column, name: string, members: set<string>)
  {
    && c.pathName == name && c.dataType == BINARY
    && c.data.Keys == IndexKeys(|members|) && c.data.Values == members
  }

  /**
   * The columns a history query produces for one key: a string gives one cell, a list its
   * items in order, a set or sorted set its members, a hash a ".key" column of its fields
   * and a ".value" column whose cell "i" is the value of the field in cell "i" of ".key".
   * A missing key gives nothing.
   */
  ghost predicate KeyColumns(ks: Keyspace, key: string, cols: seq<Column>)
  {
    if key !in ks then cols == []
    else match ks[key]
      case StringValue(text) => cols == [Column(key, BINARY, map["0" := text])]
      case ListValue(items) => |cols| == 1 && ListCells(cols[0], key, items)
      case SetValue(members) => |cols| == 1 && SetCells(cols[0], key, members)
      case ZSetValue(scores) => |cols| == 1 && SetCells(cols[0], key, scores.Keys)
      case HashValue(fields) =>
        && |cols| == 2 && SetCells(cols[0], key + SUFFIX_KEY, fields.Keys)
        && cols[1].pathName == key + SUFFIX_VALUE && cols[1].dataType == BINARY
        && cols[1].data.Keys == IndexKeys(|fields|)
        && forall i :: 0 <= i < |fields| ==>
             cols[0].data[NatToString(i)] in fields && cols[1].data[NatToString(i)] == fields[cols[0].data[NatToString(i)]]
  }

  function Concat(parts: seq<seq<Column>>): seq<Column>
    decreases |parts|
  {
    if parts == [] then [] else Concat(parts[..|parts| - 1]) + parts[|parts| - 1]
  }

  // ---------------------------------------------------------------------------------------
  // Boundary

  /** How many keys a value stands for: one for a string, else its number of elements. */
  function Length(v: Value): nat
  {
    match v
    case StringValue(_) => 1
    case ListValue(items) => |items|
    case SetValue(members) => |members|
    case ZSetValue(scores) => |scores|
    case HashValue(fields) => |fields|
  }

  /** No collection exceeds Redis' element limit. */
  ghost predicate WithinLimits(ks: Keyspace)
  {
    forall k :: k in ks ==> Length(ks[k]) <= MAX_ELEMENTS
  }

  /** `Math.max` over the lengths of the keys, starting from Long.MIN_VALUE. */
  function MaxLength(ks: Keyspace, keys: seq<string>): (r: int)
    decreases |keys|
    ensures forall i :: 0 <= i < |keys| && keys[i] in ks ==> Length(ks[keys[i]]) <= r
    ensures r == LONG_MIN <==> forall i :: 0 <= i < |keys| ==> keys[i] !in ks
    ensures r != LONG_MIN ==> exists i :: 0 <= i < |keys| && keys[i] in ks && r == Length(ks[keys[i]])
  {
    if keys == [] then LONG_MIN
    else
      var n := |keys| - 1;
      var prev := MaxLength(ks, keys[..n]);
      assert forall i :: 0 <= i < n ==> keys[..n][i] == keys[i];
      var len := if keys[n] in ks then Length(ks[keys[n]]) else LONG_MIN;
      if prev >= len then prev else len
  }

  /** The key interval for the greatest length found: [0, maxTime + 1), or [0, Long.MAX_VALUE) when none. */
  function KeyBoundary(maxTime: int): (r: KeyInterval)
    requires LONG_MIN <= maxTime < LONG_MAX
    ensures r.startKey == 0
    ensures maxTime == LONG_MIN ==> r.endKey == LONG_MAX
    ensures maxTime != LONG_MIN ==> r.endKey == maxTime + 1
  {
    var m: Long := if maxTime == LONG_MIN then LONG_MAX - 1 else maxTime;
    KeyInterval(0, m + 1)
  }

  /** Where the length scan stopped, and the greatest length it had seen. */
  datatype Scan = Scan(maxTime: int, aborted: bool)

  /** The key holds a plain (unsorted) set. */
  predicate IsSetKey(ks: Keyspace, key: string)
  {
    key in ks && ks[key].SetValue?
  }

  /**
   * The length scan as written: a plain set is measured with ZCARD, which Redis refuses for
   * a set, and the error ends the scan with whatever maximum it had so far. So the scan is
   * aborted exactly when some key is a set, and then reports the greatest length of the keys
   * before the first set; otherwise it reports the greatest length of all keys.
   */
  function MaxLengthAsWritten(ks: Keyspace, keys: seq<string>): (r: Scan)
    ensures r.aborted <==> exists i :: 0 <= i < |keys| && IsSetKey(ks, keys[i])
    ensures !r.aborted ==> r.maxTime == MaxLength(ks, keys)
    ensures r.aborted ==> exists i :: 0 <= i < |keys| && IsSetKey(ks, keys[i]) && r.maxTime == MaxLength(ks, keys[..i])
                                      && forall j :: 0 <= j < i ==> !IsSetKey(ks, keys[j])
    decreases |keys|
  {
    if keys == [] then Scan(LONG_MIN, false)
    else
      var n := |keys| - 1;
      var prev := MaxLengthAsWritten(ks, keys[..n]);
      assert forall i :: 0 <= i < n ==> keys[..n][i] == keys[i];
      assert forall i :: 0 <= i <= n ==> keys[..n][..i] == keys[..i];
      if prev.aborted then prev
      else
        var k := keys[n];
        if k !in ks then prev
        else
          var len := match ks[k]
            case StringValue(_) => Success(1)
            case ListValue(_) => LLen(ks, k)
            case SetValue(_) => ZCard(ks, k)
            case ZSetValue(_) => ZCard(ks, k)
            case HashValue(_) => HLen(ks, k);
          if len.Failure? then Scan(prev.maxTime, true)
          else Scan(if prev.maxTime >= len.value then prev.maxTime else len.value, false)
  }

  /** Without plain sets the scan as written measures every key, as the corrected scan does. */
  lemma {:induction false} AsWrittenAgreesWithoutSets(ks: Keyspace, keys: seq<string>)
    requires forall k :: k in ks ==> !ks[k].SetValue?
    ensures MaxLengthAsWritten(ks, keys) == Scan(MaxLength(ks, keys), false)
  {
    if keys != [] {
      AsWrittenAgreesWithoutSets(ks, keys[..|keys| - 1]);
    }
  }

  /**
   * A keyspace holding only the set {"a", "b"}: the scan as written stops at the set and
   * reports the unbounded interval [0, Long.MAX_VALUE), where the set's two elements call for [0, 3).
   */
  lemma AsWrittenMissesSets()
    ensures var ks := map["tags" := SetValue({"a", "b"})];
      && KeyBoundary(MaxLengthAsWritten(ks, ["tags"]).maxTime) == KeyInterval(0, LONG_MAX)
      && KeyBoundary(MaxLength(ks, ["tags"])) == KeyInterval(0, 3)
  {
    var ks := map["tags" := SetValue({"a", "b"})];
    assert ["tags"][..0] == [];
    assert "a" != "b";
    assert |{"a", "b"}| == 2;
    assert MaxLength(ks, ["tags"]) == 2;
  }

  /** The steps of the first `i` paths are a prefix of the steps of all paths. */
  lemma {:induction false} StepsPrefix(paths: seq<string>, ranges: seq<KeyRange>, i: nat)
    requires i <= |paths|
    ensures Steps(paths[..i], ranges) <= Steps(paths, ranges)
    decreases |paths|
  {
    if i < |paths| {
      var n := |paths| - 1;
      assert paths[..n][..i] == paths[..i];
      StepsPrefix(paths[..n], ranges, i);
    } else {
      assert paths[..i] == paths;
    }
  }

  /** After a successful run of `a`, running `a + b` is running `b` from where `a` left off. */
  lemma {:induction false} DeleteRangesAppend(ks: Keyspace, unit: string, a: seq<DeleteStep>, b: seq<DeleteStep>)
    requires DeleteRanges(ks, unit, a).ok
    ensures DeleteRanges(ks, unit, a + b) == DeleteRanges(DeleteRanges(ks, unit, a).keyspace, unit, b)
    decreases |b|
  {
    if b == [] {
      assert a + b == a;
    } else {
      var n := |b| - 1;
      assert (a + b)[..|a + b| - 1] == a + b[..n];
      DeleteRangesAppend(ks, unit, a, b[..n]);
    }
  }

  /** The distinct elements of a set in some order, as iterating a hash-based collection yields them. */
  method Enumerate(s: set<string>) returns (order: seq<string>)
    ensures forall x :: x in order <==> x in s
    ensures forall i, j :: 0 <= i < j < |order| ==> order[i] != order[j]
    ensures |order| == |s|
  {
    order := [];
    var rest := s;
    while rest != {}
      invariant rest <= s
      invariant forall x :: x in order <==> x in s - rest
      invariant forall i, j :: 0 <= i < j < |order| ==> order[i] != order[j]
      invariant |order| == |s - rest|
      decreases rest
    {
      var x :| x in rest;
      assert s - (rest - {x}) == (s - rest) + {x};
      order := order + [x];
      rest := rest - {x};
    }
  }

  /** The cells of a list column over the distinct elements of a set hold exactly that set. */
  lemma ListCellsOfSet(c: Column, name: string, order: seq<string>, s: set<string>)
    requires ListCells(c, name, order)
    requires forall x :: x in order <==> x in s
    requires |order| == |s|
    ensures SetCells(c, name, s)
  {
    forall v | v in c.data.Values ensures v in s {
      var k :| k in c.data && c.data[k] == v;
      var i :| 0 <= i < |order| && NatToString(i) == k;
    }
    forall x | x in s ensures x in c.data.Values {
      var i :| 0 <= i < |order| && order[i] == x;
      assert NatToString(i) in IndexKeys(|order|);
      assert c.data[NatToString(i)] == x;
    }
  }

  lemma ConcatStep(parts: seq<seq<Column>>, cols: seq<Column>)
    ensures Concat(parts + [cols]) == Concat(parts) + cols
  {
    assert (parts + [cols])[..|parts|] == parts;
  }

  /** Over keys that all exist, the key interval ends one past the longest of them. */
  lemma BoundaryOfLengths(ks: Keyspace, keys: seq<string>)
    requires WithinLimits(ks)
    requires forall i :: 0 <= i < |keys| ==> keys[i] in ks
    ensures LONG_MIN <= MaxLength(ks, keys) < LONG_MAX
    ensures KeyBoundary(MaxLength(ks, keys)).startKey == 0
    ensures forall i :: 0 <= i < |keys| ==> Length(ks[keys[i]]) < KeyBoundary(MaxLength(ks, keys)).endKey
    ensures keys == [] ==> KeyBoundary(MaxLength(ks, keys)).endKey == LONG_MAX
    ensures keys != [] ==> exists i :: 0 <= i < |keys| && KeyBoundary(MaxLength(ks, keys)).endKey == Length(ks[keys[i]]) + 1
  {
    var m := MaxLength(ks, keys);
    if m != LONG_MIN {
      var i :| 0 <= i < |keys| && keys[i] in ks && m == Length(ks[keys[i]]);
    }
  }

  /** The adapter over one Redis server. */
  class RedisStorage {
    const redis: Redis

    constructor (redis: Redis)
      ensures this.redis == redis
    {
      this.redis := redis;
    }

    /** The three writes of one path. */
    method InsertOne(unit: string, d: PathData) returns (ok: bool)
      modifies redis
      ensures redis.reachable == old(redis.reachable)
      ensures Applied(ok, redis.keyspace) == InsertPath(old(redis.keyspace), unit, d)
    {
      ok := redis.Run(HSet(redis.keyspace, ValuesKey(unit, d.path), d.values));
      if ok {
        ok := redis.Run(ZAdd(redis.keyspace, ScoresKey(unit, d.path), d.scores));
        if ok {
          ok := redis.Run(HSet(redis.keyspace, DATA_TYPE_KEY, map[d.path := TypeName(d.dataType)]));
        }
      }
    }

    /**
     * Writes the batch path by path; the first failing write ends the insert with an error,
     * keeping the writes before it. Without a connection nothing is written, and a non-empty
     * batch fails.
     */
    method ExecuteInsert(unit: string, batch: seq<PathData>) returns (r: TaskResult)
      modifies redis
      ensures redis.reachable == old(redis.reachable)
      ensures !redis.reachable ==>
                redis.keyspace == old(redis.keyspace) && r == (if batch == [] then Done else Failed(INSERT_ERROR))
      ensures redis.reachable ==>
                var a := InsertBatch(old(redis.keyspace), unit, batch);
                redis.keyspace == a.keyspace && r == (if a.ok then Done else Failed(INSERT_ERROR))
    {
      for i := 0 to |batch|
        invariant redis.reachable == old(redis.reachable)
        invariant !redis.reachable ==> redis.keyspace == old(redis.keyspace) && i == 0
        invariant redis.reachable ==> InsertBatch(old(redis.keyspace), unit, batch[..i]) == Applied(true, redis.keyspace)
      {
        if !redis.reachable {
          return Failed(INSERT_ERROR);
        }
        var ok := InsertOne(unit, batch[i]);
        assert batch[..i + 1][..i] == batch[..i];
        if !ok {
          InsertBatchStops(old(redis.keyspace), unit, batch, i + 1);
          return Failed(INSERT_ERROR);
        }
      }
      assert batch[..|batch|] == batch;
      r := Done;
    }

    /** KEYS pattern; no keys when the server cannot be reached. */
    method GetKeysByPattern(pattern: string) returns (keys: set<string>)
      ensures redis.reachable ==> keys == Keys(redis.keyspace, pattern)
      ensures !redis.reachable ==> keys == {}
    {
      if redis.reachable {
        keys := Keys(redis.keyspace, pattern);
      } else {
        keys := {};
      }
    }

    /**
     * The paths of the unit matching the patterns: for every sorted-set key matching
     * "keys:<unit>:<pattern>*" that splits on ':' into three pieces, the third piece, kept
     * when the tag filter admits it.
     */
    method DeterminePathList(unit: string, patterns: seq<string>, tagFilter: Option<string -> bool>)
      returns (paths: seq<string>)
      ensures DeterminedPaths(redis.keyspace, redis.reachable, unit, patterns, tagFilter, paths)
    {
      if !redis.reachable {
        return [];
      }
      var ks := redis.keyspace;
      var found: seq<string> := [];
      for i := 0 to |patterns|
        invariant forall x :: x in found <==>
                    exists j, key :: 0 <= j < i && key in Keys(ks, ScoresKey(unit, patterns[j]) + TAG_SUFFIX) && PathOfKey(key) == Some(x)
      {
        var matched := Keys(ks, ScoresKey(unit, patterns[i]) + TAG_SUFFIX);
        var rest := matched;
        while rest != {}
          invariant rest <= matched
          invariant forall x :: x in found <==>
                      (exists j, key :: 0 <= j < i && key in Keys(ks, ScoresKey(unit, patterns[j]) + TAG_SUFFIX) && PathOfKey(key) == Some(x))
                      || (exists key :: key in matched - rest && PathOfKey(key) == Some(x))
          decreases rest
        {
          var key :| key in rest;
          var splits := JavaSplit(key, KEY_SPLIT);
          ghost var before := found;
          if |splits| == 3 {
            found := found + [splits[2]];
          }
          assert PathOfKey(key) == (if |splits| == 3 then Some(splits[2]) else None);
          assert matched - (rest - {key}) == (matched - rest) + {key};
          assert forall x :: x in found <==> x in before || PathOfKey(key) == Some(x);
          rest := rest - {key};
        }
      }
      if tagFilter.None? {
        return found;
      }
      paths := [];
      for i := 0 to |found|
        invariant forall x :: x in paths <==> x in found[..i] && tagFilter.value(x)
      {
        if tagFilter.value(found[i]) {
          paths := paths + [found[i]];
        }
        assert found[..i + 1] == found[..i] + [found[i]];
      }
      assert found[..|found|] == found;
    }
  
    /** The array of keys handed to DEL: the values key of each path, then its sorted-set key. */
    method DeletedKeys(unit: string, paths: seq<string>) returns (named: set<string>)
      ensures named == PathKeys(unit, paths)
    {
      var size := |paths|;
      var keys := new string[2 * size](_ => "");
      for i := 0 to size
        invariant forall j :: 0 <= j < i ==> keys[j] == ValuesKey(unit, paths[j]) && keys[j + size] == ScoresKey(unit, paths[j])
      {
        keys[i] := ValuesKey(unit, paths[i]);
        keys[i + size] := ScoresKey(unit, paths[i]);
      }
      named := set k | k in keys[..];
      forall k | k in named ensures k in PathKeys(unit, paths) {
        var j :| 0 <= j < keys.Length && keys[j] == k;
        if j >= size {
          assert k == ScoresKey(unit, paths[j - size]);
        }
      }
      forall p | p in paths ensures ValuesKey(unit, p) in named && ScoresKey(unit, p) in named {
        var j :| 0 <= j < size && paths[j] == p;
        assert keys[j] in keys[..] && keys[j + size] in keys[..];
      }
    }

    /** One DEL over the values and sorted-set keys of every path, then HDEL of their types. */
    method DeletePaths(unit: string, paths: seq<string>) returns (ok: bool)
      modifies redis
      ensures redis.reachable == old(redis.reachable)
      ensures Applied(ok, redis.keyspace) == DeleteAll(old(redis.keyspace), unit, paths)
    {
      var named := DeletedKeys(unit, paths);
      ok := redis.Run(Success(Del(redis.keyspace, named)));
      ok := redis.Run(HDel(redis.keyspace, DATA_TYPE_KEY, set p | p in paths));
    }

    /** ZRANGEBYSCORE over the range; when it finds members, HDEL them and ZREMRANGEBYSCORE. */
    method DeleteOne(unit: string, step: DeleteStep) returns (ok: bool)
      modifies redis
      ensures redis.reachable == old(redis.reachable)
      ensures Applied(ok, redis.keyspace) == DeleteRange(old(redis.keyspace), unit, step)
    {
      var vk := ValuesKey(unit, step.path);
      var sk := ScoresKey(unit, step.path);
      var lo, hi := step.range.actualBeginKey, step.range.actualEndKey;
      var members := ZRangeByScore(redis.keyspace, sk, lo, hi);
      if members.Failure? {
        return false;
      }
      if members.value == {} {
        return true;
      }
      ok := redis.Run(HDel(redis.keyspace, vk, members.value));
      if ok {
        ok := redis.Run(ZRemRangeByScore(redis.keyspace, sk, lo, hi));
      }
    }

    /** Every range of one path, in order; the first failing command ends the run. */
    method DeletePathRanges(unit: string, path: string, ranges: seq<KeyRange>) returns (ok: bool)
      modifies redis
      ensures redis.reachable == old(redis.reachable)
      ensures Applied(ok, redis.keyspace) == DeleteRanges(old(redis.keyspace), unit, PathSteps(path, ranges))
    {
      ghost var ks0 := redis.keyspace;
      for j := 0 to |ranges|
        invariant redis.reachable == old(redis.reachable)
        invariant DeleteRanges(ks0, unit, PathSteps(path, ranges[..j])) == Applied(true, redis.keyspace)
      {
        var step := DeleteStep(path, ranges[j]);
        ok := DeleteOne(unit, step);
        assert PathSteps(path, ranges[..j + 1])[..j] == PathSteps(path, ranges[..j]);
        if !ok {
          assert PathSteps(path, ranges)[..j + 1] == PathSteps(path, ranges[..j + 1]);
          DeleteRangesStops(ks0, unit, PathSteps(path, ranges), j + 1);
          return;
        }
      }
      assert ranges[..|ranges|] == ranges;
      ok := true;
    }

    /** Every range of every path, in order; the first failing command ends the delete. */
    method DeleteRangesOf(unit: string, paths: seq<string>, ranges: seq<KeyRange>) returns (ok: bool)
      modifies redis
      ensures redis.reachable == old(redis.reachable)
      ensures Applied(ok, redis.keyspace) == DeleteRanges(old(redis.keyspace), unit, Steps(paths, ranges))
    {
      ghost var ks0 := redis.keyspace;
      for i := 0 to |paths|
        invariant redis.reachable == old(redis.reachable)
        invariant DeleteRanges(ks0, unit, Steps(paths[..i], ranges)) == Applied(true, redis.keyspace)
      {
        assert paths[..i + 1][..i] == paths[..i];
        DeleteRangesAppend(ks0, unit, Steps(paths[..i], ranges), PathSteps(paths[i], ranges));
        ok := DeletePathRanges(unit, paths[i], ranges);
        if !ok {
          StepsPrefix(paths, ranges, i + 1);
          assert Steps(paths, ranges)[..|Steps(paths[..i + 1], ranges)|] == Steps(paths[..i + 1], ranges);
          DeleteRangesStops(ks0, unit, Steps(paths, ranges), |Steps(paths[..i + 1], ranges)|);
          return;
        }
      }
      assert paths[..|paths|] == paths;
      ok := true;
    }

    /**
     * Deletes the paths the patterns determine: with no key ranges, the whole paths; with key
     * ranges, the entries of each path whose keys fall in each range. No determined path means
     * nothing to do.
     */
    method ExecuteDelete(unit: string, patterns: seq<string>, tagFilter: Option<string -> bool>,
                         keyRanges: Option<seq<KeyRange>>)
      returns (r: TaskResult, ghost paths: seq<string>)
      modifies redis
      ensures DeterminedPaths(old(redis.keyspace), redis.reachable, unit, patterns, tagFilter, paths)
      ensures redis.reachable == old(redis.reachable)
      ensures paths == [] ==> r == Done && redis.keyspace == old(redis.keyspace)
      ensures paths != [] && (keyRanges.None? || keyRanges.value == []) ==>
                var a := DeleteAll(old(redis.keyspace), unit, paths);
                redis.keyspace == a.keyspace && r == (if a.ok then Done else Failed(DELETE_PATH_ERROR))
      ensures paths != [] && keyRanges.Some? && keyRanges.value != [] ==>
                var a := DeleteRanges(old(redis.keyspace), unit, Steps(paths, keyRanges.value));
                redis.keyspace == a.keyspace && r == (if a.ok then Done else Failed(DELETE_DATA_ERROR))
    {
      var deleted := DeterminePathList(unit, patterns, tagFilter);
      paths := deleted;
      if deleted == [] {
        return Done, paths;
      }
      var ok;
      if keyRanges.None? || keyRanges.value == [] {
        ok := DeletePaths(unit, deleted);
        r := if ok then Done else Failed(DELETE_PATH_ERROR);
      } else {
        ok := DeleteRangesOf(unit, deleted, keyRanges.value);
        r := if ok then Done else Failed(DELETE_DATA_ERROR);
      }
    }

    /**
     * Reads the determined paths: a path whose recorded type is known gives a column of that
     * type holding its values hash; a path with no recorded type is skipped.
     */
    method ExecuteProject(unit: string, patterns: seq<string>, tagFilter: Option<string -> bool>)
      returns (r: TaskResult, ghost paths: seq<string>)
      ensures DeterminedPaths(redis.keyspace, redis.reachable, unit, patterns, tagFilter, paths)
      ensures !redis.reachable ==> r == Failed(QUERY_PATH_ERROR)
      ensures redis.reachable ==> r == match ProjectColumns(redis.keyspace, unit, paths)
                                       case Success(columns) => Rows(columns)
                                       case Failure(_) => Failed(QUERY_PATH_ERROR)
    {
      var queryPaths := DeterminePathList(unit, patterns, tagFilter);
      paths := queryPaths;
      if !redis.reachable {
        return Failed(QUERY_PATH_ERROR), paths;
      }
      var ks := redis.keyspace;
      var columns: seq<Column> := [];
      for i := 0 to |queryPaths|
        invariant ProjectColumns(ks, unit, queryPaths[..i]) == Success(columns)
      {
        var p := queryPaths[i];
        assert queryPaths[..i + 1][..i] == queryPaths[..i] && queryPaths[..i + 1][i] == p;
        var t := HGet(ks, DATA_TYPE_KEY, p);
        if t.Failure? {
          assert !Readable(ks, unit, queryPaths[i]);
          return Failed(QUERY_PATH_ERROR), paths;
        }
        var dataType := if t.value.None? then None else ParseTypeName(t.value.value);
        if dataType.Some? {
          var data := HGetAll(ks, ValuesKey(unit, p));
          if data.Failure? {
            assert !Readable(ks, unit, queryPaths[i]);
            return Failed(QUERY_PATH_ERROR), paths;
          }
          columns := columns + [Column(p, dataType.value, data.value)];
        }
      }
      assert queryPaths[..|queryPaths|] == queryPaths;
      r := Rows(columns);
    }

    /** The columns of one key, by its TYPE. */
    method ColumnsOfKey(key: string) returns (cols: seq<Column>)
      ensures KeyColumns(redis.keyspace, key, cols)
    {
      var ks := redis.keyspace;
      var t := TypeOf(ks, key);
      if t == "string" {
        var c := ValueColumn(key, ks[key].text);
        cols := [c];
      } else if t == "list" {
        var c := ListColumn(key, ks[key].items);
        cols := [c];
      } else if t == "set" {
        var c := SetColumn(key, ks[key].members);
        cols := [c];
      } else if t == "zset" {
        var order := Enumerate(ks[key].scores.Keys);
        var c := ListColumn(key, order);
        ListCellsOfSet(c, key, order, ks[key].scores.Keys);
        cols := [c];
      } else if t == "hash" {
        var fields := ks[key].fields;
        var order := Enumerate(fields.Keys);
        var keyColumn := ListColumn(key + SUFFIX_KEY, order);
        ListCellsOfSet(keyColumn, key + SUFFIX_KEY, order, fields.Keys);
        var valueColumn := ListColumn(key + SUFFIX_VALUE, seq(|order|, i requires 0 <= i < |order| => fields[order[i]]));
        cols := [keyColumn, valueColumn];
      } else {
        cols := [];
      }
    }

    /**
     * A history query: the keys named by the patterns (a pattern with `*` expands to the keys
     * matching it, any other pattern names itself), each read by its type.
     */
    method ExecuteProjectDummy(patterns: seq<string>)
      returns (r: TaskResult, ghost order: seq<string>, ghost parts: seq<seq<Column>>)
      ensures !redis.reachable ==> r == Failed(QUERY_HISTORY_ERROR)
      ensures redis.reachable ==> forall x :: x in order <==> Queried(redis.keyspace, patterns, x)
      ensures forall i, j :: 0 <= i < j < |order| ==> order[i] != order[j]
      ensures |parts| == |order|
      ensures forall i :: 0 <= i < |order| ==> KeyColumns(redis.keyspace, order[i], parts[i])
      ensures redis.reachable ==> r == Rows(Concat(parts))
    {
      var ks := redis.keyspace;
      var queryPaths: set<string> := {};
      for i := 0 to |patterns|
        invariant redis.reachable ==> forall x :: x in queryPaths <==> exists j :: 0 <= j < i && QueriedBy(ks, patterns[j], x)
      {
        if STAR in patterns[i] {
          var found := GetKeysByPattern(patterns[i]);
          queryPaths := queryPaths + found;
        } else {
          queryPaths := queryPaths + {patterns[i]};
        }
      }
      order, parts := [], [];
      if !redis.reachable {
        return Failed(QUERY_HISTORY_ERROR), order, parts;
      }
      var columns: seq<Column> := [];
      var rest := queryPaths;
      while rest != {}
        invariant rest <= queryPaths
        invariant forall x :: x in order <==> x in queryPaths - rest
        invariant forall i, j :: 0 <= i < j < |order| ==> order[i] != order[j]
        invariant |parts| == |order|
        invariant forall i :: 0 <= i < |order| ==> KeyColumns(ks, order[i], parts[i])
        invariant columns == Concat(parts)
        decreases rest
      {
        var key :| key in rest;
        var cols := ColumnsOfKey(key);
        assert key !in order;
        ConcatStep(parts, cols);
        order, parts := order + [key], parts + [cols];
        columns := columns + cols;
        rest := rest - {key};
      }
      r := Rows(columns);
    }

    /** The TYPE of one key and then its length command; Long.MIN_VALUE for a missing key. */
    method KeyLength(ks: Keyspace, path: string) returns (len: int)
      ensures len == if path in ks then Length(ks[path]) else LONG_MIN
    {
      var t := TypeOf(ks, path);
      len := LONG_MIN;
      if t == "string" {
        len := 1;
      } else if t == "list" {
        len := LLen(ks, path).value;
      } else if t == "set" {
        len := SCard(ks, path).value;
      } else if t == "zset" {
        len := ZCard(ks, path).value;
      } else if t == "hash" {
        len := HLen(ks, path).value;
      }
    }

    /** The length of each key in turn, keeping the largest. */
    method LongestKey(paths: seq<string>) returns (maxTime: int)
      ensures maxTime == MaxLength(redis.keyspace, paths)
    {
      var ks := redis.keyspace;
      maxTime := LONG_MIN;
      for i := 0 to |paths|
        invariant maxTime == MaxLength(ks, paths[..i])
      {
        var len := KeyLength(ks, paths[i]);
        assert paths[..i + 1][..i] == paths[..i] && paths[..i + 1][i] == paths[i];
        maxTime := if maxTime >= len then maxTime else len;
      }
      assert paths[..|paths|] == paths;
    }

    /**
     * The storage boundary: the path interval is the prefix's, else from the least key to the
     * successor of the greatest, else open; the key interval is [0, longest + 1), or
     * [0, Long.MAX_VALUE) when no key has a length.
     */
    method GetBoundaryOfStorage(prefix: Option<string>, nextString: string -> string)
      returns (columns: ColumnsInterval, keys: KeyInterval, ghost paths: seq<string>)
      requires WithinLimits(redis.keyspace)
      ensures redis.reachable ==> forall x :: x in paths <==> x in redis.keyspace
      ensures !redis.reachable ==> paths == []
      ensures StrictlySorted(paths)
      ensures prefix.Some? ==> columns == ColumnsInterval(prefix, Some(nextString(prefix.value)))
      ensures prefix.None? && paths != [] ==>
                columns == ColumnsInterval(Some(paths[0]), Some(nextString(paths[|paths| - 1])))
      ensures prefix.None? && paths == [] ==> columns == ColumnsInterval(None, None)
      ensures keys.startKey == 0
      ensures forall i :: 0 <= i < |paths| ==> Length(redis.keyspace[paths[i]]) < keys.endKey
      ensures paths == [] ==> keys.endKey == LONG_MAX
      ensures paths != [] ==> exists i :: 0 <= i < |paths| && keys.endKey == Length(redis.keyspace[paths[i]]) + 1
    {
      var ks := redis.keyspace;
      var all := GetKeysByPattern([STAR]);
      assert forall x :: x in all ==> x in ks;
      if redis.reachable {
        assert forall k :: k in ks ==> k in all by {
          forall k | k in ks ensures GlobMatch([STAR], k) {
            StarMatchesAll(k);
          }
        }
      }
      var sorted := SortedList(all);
      paths := sorted;
      if sorted != [] {
        assert sorted[0] in all;
      }
      if prefix.Some? {
        columns := ColumnsInterval(prefix, Some(nextString(prefix.value)));
      } else if sorted != [] {
        columns := ColumnsInterval(Some(sorted[0]), Some(nextString(sorted[|sorted| - 1])));
      } else {
        columns := ColumnsInterval(None, None);
      }
      var maxTime := LONG_MIN;
      if redis.reachable {
        maxTime := LongestKey(sorted);
      }
      assert forall i :: 0 <= i < |sorted| ==> sorted[i] in ks by {
        forall i | 0 <= i < |sorted| ensures sorted[i] in ks {
          assert sorted[i] in all;
        }
      }
      BoundaryOfLengths(ks, sorted);
      keys := KeyBoundary(maxTime);
    }
}
}
