/**
 * The column a Redis query hands to its row stream: a path name, a type and the column's
 * cells keyed by string. A history column built from a string, list or set normalises its
 * values into the index-keyed map "0", "1", ... with type BINARY.
 */
module RedisColumns {
  import opened Shared
  import opened Strings

  datatype Column = Column(pathName: string, dataType: DataType, data: map<string, string>)

  /** The index keys "0", ..., "n-1". */
  ghost function IndexKeys(n: nat): set<string>
  {
    set i | 0 <= i < n :: NatToString(i)
  }

  lemma IndexKeysStep(n: nat)
    ensures IndexKeys(n + 1) == IndexKeys(n) + {NatToString(n)}
    ensures NatToString(n) !in IndexKeys(n)
  {
    assert NatToString(n) in IndexKeys(n + 1);
    if NatToString(n) in IndexKeys(n) {
      var i :| 0 <= i < n && NatToString(i) == NatToString(n);
      NatToStringInjective(i, n);
    }
  }

  /** The path-only constructor: no cells, type BINARY. */
  method PathColumn(pathName: string) returns (c: Column)
    ensures c == Column(pathName, BINARY, map[])
  {
    c := Column(pathName, BINARY, map[]);
  }

  /** The single-value constructor: the one cell "0" holds the value. */
  method ValueColumn(pathName: string, value: string) returns (c: Column)
    ensures c.pathName == pathName && c.dataType == BINARY
    ensures c.data == map["0" := value]
    ensures c.data.Keys == IndexKeys(1) && c.data[NatToString(0)] == value
  {
    c := PathColumn(pathName);
    c := c.(data := c.data["0" := value]);
    assert NatToString(0) == "0";
    IndexKeysStep(0);
  }

  /** The list constructor: cell `String.valueOf(i)` holds `values[i]`, and there is no other cell. */
  method ListColumn(pathName: string, values: seq<string>) returns (c: Column)
    ensures c.pathName == pathName && c.dataType == BINARY
    ensures c.data.Keys == IndexKeys(|values|) && |c.data| == |values|
    ensures forall i :: 0 <= i < |values| ==> c.data[NatToString(i)] == values[i]
  {
    c := PathColumn(pathName);
    var data := c.data;
    for i := 0 to |values|
      invariant data.Keys == IndexKeys(i) && |data| == i
      invariant forall k :: 0 <= k < i ==> data[NatToString(k)] == values[k]
    {
      ListColumnStep(data, i, values);
      data := data[NatToString(i) := values[i]];
    }
    c := c.(data := data);
  }

  lemma ListColumnStep(data: map<string, string>, i: nat, values: seq<string>)
    requires i < |values|
    requires data.Keys == IndexKeys(i) && |data| == i
    requires forall k :: 0 <= k < i ==> data[NatToString(k)] == values[k]
    ensures var data' := data[NatToString(i) := values[i]];
      && data'.Keys == IndexKeys(i + 1) && |data'| == i + 1
      && forall k :: 0 <= k < i + 1 ==> data'[NatToString(k)] == values[k]
  {
    var key := NatToString(i);
    IndexKeysStep(i);
    assert data[key := values[i]].Keys == data.Keys + {key};
    forall k | 0 <= k < i ensures NatToString(k) != key {
      assert NatToString(k) in IndexKeys(i);
    }
  }

  lemma AddFreshKey(m: map<string, string>, k: string, v: string)
    requires k !in m
    ensures m[k := v].Values == m.Values + {v}
    ensures |m[k := v]| == |m| + 1
  {
    var m' := m[k := v];
    forall x | x in m'.Values ensures x in m.Values + {v} {
      var y :| y in m' && m'[y] == x;
      if y != k {
        assert y in m && m[y] == x;
        assert x in m.Values;
      }
    }
    forall x | x in m.Values + {v} ensures x in m'.Values {
      if x == v {
        assert k in m' && m'[k] == x;
      } else {
        var y :| y in m && m[y] == x;
        assert y != k;
        assert y in m' && m'[y] == x;
      }
    }
    assert m'.Keys == m.Keys + {k};
  }

  lemma SetColumnStep(data: map<string, string>, i: nat, values: set<string>, rest: set<string>, value: string)
    requires rest <= values && value in rest
    requires data.Keys == IndexKeys(i) && |data| == i && data.Values == values - rest
    ensures var data' := data[NatToString(i) := value];
      && data'.Keys == IndexKeys(i + 1) && |data'| == i + 1
      && data'.Values == values - (rest - {value})
  {
    var key := NatToString(i);
    IndexKeysStep(i);
    AddFreshKey(data, key, value);
    SetDifferenceStep(values, rest, value);
  }

  lemma SetDifferenceStep(values: set<string>, rest: set<string>, value: string)
    requires value in rest && rest <= values
    ensures values - (rest - {value}) == (values - rest) + {value}
  {
  }

  /**
   * The set constructor: exactly as many cells as the set has members, keyed "0" to "n-1", whose
   * values are exactly the members (taken in the set's unspecified iteration order).
   */
  method SetColumn(pathName: string, values: set<string>) returns (c: Column)
    ensures c.pathName == pathName && c.dataType == BINARY
    ensures c.data.Keys == IndexKeys(|values|) && |c.data| == |values|
    ensures c.data.Values == values
  {
    c := PathColumn(pathName);
    var data := c.data;
    var i := 0;
    var rest := values;
    while rest != {}
      invariant rest <= values && i + |rest| == |values|
      invariant data.Keys == IndexKeys(i) && |data| == i
      invariant data.Values == values - rest
      decreases rest
    {
      var value :| value in rest;
      SetColumnStep(data, i, values, rest, value);
      data := data[NatToString(i) := value];
      i := i + 1;
      rest := rest - {value};
    }
    c := c.(data := data);
  }
}
