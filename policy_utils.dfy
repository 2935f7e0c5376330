/**
 * Routing helpers of the allocation policy: which paths a data statement names, the
 * wildcard-free prefixes of a list of path patterns, and the key interval a statement touches.
 * The level placeholder and the level separator are parameters (`*` and `.` in practice).
 */
module PolicyUtils {
  import opened Wrappers
  import opened Shared
  import opened Strings

  /** The data statements the policy inspects; every other statement type is `OtherStatement`. */
  datatype Statement =
    | SelectStatement(pathSet: set<string>, startTime: Long, endTime: Long)
    | DeleteStatement(paths: seq<string>, keyRanges: seq<KeyRange>)
    | InsertStatement(paths: seq<string>, keys: seq<Long>)
    | OtherStatement

  /**
   * The path list of a statement: the members of a select's path set (listed in the set's
   * unspecified iteration order), the paths of a delete or an insert, and nothing otherwise.
   */
  method PathListFromStatement(st: Statement) returns (r: seq<string>)
    ensures st.SelectStatement? ==> |r| == |st.pathSet| && forall p :: p in r <==> p in st.pathSet
    ensures st.DeleteStatement? || st.InsertStatement? ==> r == st.paths
    ensures st.OtherStatement? ==> r == []
  {
    match st
    case SelectStatement(pathSet, _, _) =>
      r := [];
      var rest := pathSet;
      while rest != {}
        invariant rest <= pathSet
        invariant |r| + |rest| == |pathSet|
        invariant forall p :: p in r <==> p in pathSet - rest
        decreases rest
      {
        var p :| p in rest;
        r := r + [p];
        rest := rest - {p};
      }
    case DeleteStatement(paths, _) =>
      r := paths;
    case InsertStatement(paths, _) =>
      r := paths;
    case OtherStatement =>
      r := [];
  }

  /** The number of levels before the first level equal to the placeholder. */
  function LevelsBefore(levels: seq<string>, placeholder: string): (k: nat)
    ensures k <= |levels|
    ensures forall i :: 0 <= i < k ==> levels[i] != placeholder
    ensures k < |levels| ==> levels[k] == placeholder
  {
    if levels == [] || levels[0] == placeholder then 0
    else 1 + LevelsBefore(levels[1..], placeholder)
  }

  /** One step of the path builder: a separator unless the builder is still empty, then the level. */
  function AppendLevel(builder: string, level: string, separator: char): string
  {
    (if |builder| != 0 then builder + [separator] else builder) + level
  }

  /** The builder after appending the levels up to the first placeholder level. */
  function LevelPrefix(builder: string, levels: seq<string>, placeholder: string, separator: char): string
    decreases levels
  {
    if levels == [] || levels[0] == placeholder then builder
    else LevelPrefix(AppendLevel(builder, levels[0], separator), levels[1..], placeholder, separator)
  }

  /**
   * What one path pattern contributes to the wildcard-free set: the path itself when it does
   * not contain the placeholder, nothing when its split is empty or starts with the placeholder,
   * and otherwise the levels before its first placeholder level.
   */
  function CutPath(path: string, placeholder: string, separator: char): Option<string>
  {
    if !Contains(path, placeholder) then Some(path)
    else
      var levels := JavaSplit(path, separator);
      if |levels| == 0 || levels[0] == placeholder then None
      else Some(LevelPrefix("", levels, placeholder, separator))
  }

  /**
   * The sorted, duplicate-free list of what every pattern contributes (the patterns are
   * collected into a tree set).
   */
  method NonWildCardPaths(paths: seq<string>, placeholder: string, separator: char) returns (r: seq<string>)
    ensures StrictlySorted(r)
    ensures forall x :: x in r <==>
      exists i :: 0 <= i < |paths| && CutPath(paths[i], placeholder, separator) == Some(x)
    ensures forall i :: 0 <= i < |paths| && !Contains(paths[i], placeholder) ==> paths[i] in r
  {
    var beCutPaths: seq<string> := [];
    for i := 0 to |paths|
      invariant StrictlySorted(beCutPaths)
      invariant forall x :: x in beCutPaths <==>
        exists k :: 0 <= k < i && CutPath(paths[k], placeholder, separator) == Some(x)
    {
      var path := paths[i];
      if !Contains(path, placeholder) {
        beCutPaths := SortedInsert(beCutPaths, path);
        continue;
      }
      var parts := JavaSplit(path, separator);
      if |parts| == 0 || parts[0] == placeholder {
        continue;
      }
      var pathBuilder := "";
      var j := 0;
      while j < |parts| && parts[j] != placeholder
        invariant 0 <= j <= |parts|
        invariant LevelPrefix(pathBuilder, parts[j..], placeholder, separator)
               == LevelPrefix("", parts, placeholder, separator)
      {
        if |pathBuilder| != 0 {
          pathBuilder := pathBuilder + [separator];
        }
        pathBuilder := pathBuilder + parts[j];
        assert parts[j..][1..] == parts[j + 1..];
        j := j + 1;
      }
      beCutPaths := SortedInsert(beCutPaths, pathBuilder);
    }
    r := beCutPaths;
    forall i | 0 <= i < |paths| && !Contains(paths[i], placeholder) ensures paths[i] in r {
      assert CutPath(paths[i], placeholder, separator) == Some(paths[i]);
    }
  }

  lemma JoinMergeFirst(a: string, sep: string, c: string, t: seq<string>)
    ensures Join([a + sep + c] + t, sep) == Join([a, c] + t, sep)
  {
    if t != [] {
      assert ([a, c] + t)[1..] == [c] + t;
      assert ([a + sep + c] + t)[1..] == t;
      assert Join([c] + t, sep) == c + sep + Join(t, sep) by {
        assert ([c] + t)[1..] == t;
      }
    } else {
      assert [a, c][1..] == [c];
    }
  }

  /** Once the builder holds something, the builder is the separator-join of itself and the levels taken. */
  lemma {:induction false} LevelPrefixFromNonEmpty(b: string, levels: seq<string>, placeholder: string, separator: char)
    requires b != ""
    ensures LevelPrefix(b, levels, placeholder, separator)
         == Join([b] + levels[..LevelsBefore(levels, placeholder)], [separator])
    decreases levels
  {
    var k := LevelsBefore(levels, placeholder);
    if levels == [] || levels[0] == placeholder {
      assert [b] + levels[..k] == [b];
    } else {
      var b' := AppendLevel(b, levels[0], separator);
      assert b' == b + [separator] + levels[0];
      LevelPrefixFromNonEmpty(b', levels[1..], placeholder, separator);
      assert LevelsBefore(levels[1..], placeholder) == k - 1;
      assert levels[1..][..k - 1] == levels[..k][1..];
      JoinMergeFirst(b, [separator], levels[0], levels[..k][1..]);
      assert [b, levels[0]] + levels[..k][1..] == [b] + levels[..k];
    }
  }

  /**
   * A pattern that contains the placeholder, whose split is non-empty and whose first level is
   * neither the placeholder nor empty, is cut to the separator-join of the levels before its
   * first placeholder level (a level such as `b*c` does not stop the cut), and that cut is a
   * prefix of the pattern.
   */
  lemma CutPathIsLevelPrefix(path: string, placeholder: string, separator: char)
    requires Contains(path, placeholder)
    requires var levels := JavaSplit(path, separator);
      |levels| > 0 && levels[0] != placeholder && levels[0] != ""
    ensures var levels := JavaSplit(path, separator);
      var k := LevelsBefore(levels, placeholder);
      && 1 <= k
      && CutPath(path, placeholder, separator) == Some(Join(levels[..k], [separator]))
      && Join(levels[..k], [separator]) <= path
  {
    var levels := JavaSplit(path, separator);
    var k := LevelsBefore(levels, placeholder);
    assert AppendLevel("", levels[0], separator) == levels[0];
    LevelPrefixFromNonEmpty(levels[0], levels[1..], placeholder, separator);
    assert LevelsBefore(levels[1..], placeholder) == k - 1;
    assert [levels[0]] + levels[1..][..k - 1] == levels[..k];
    var all := SplitAll(path, separator);
    if separator in path {
      assert levels == all[..|levels|];
      assert levels[..k] == all[..k];
      JoinPrefix(all, k, [separator]);
      JoinSplitAll(path, separator);
    } else {
      assert levels == [path];
      assert levels[..k] == [path];
    }
  }

  /** The smallest begin key of the ranges, Long.MAX_VALUE when there is none. */
  ghost predicate IsLeastBegin(x: Long, ranges: seq<KeyRange>)
  {
    (exists r :: r in ranges && r.beginKey == x) && forall r :: r in ranges ==> x <= r.beginKey
  }

  ghost predicate IsGreatestEnd(x: Long, ranges: seq<KeyRange>)
  {
    (exists r :: r in ranges && r.endKey == x) && forall r :: r in ranges ==> r.endKey <= x
  }

  /**
   * The key interval a statement touches: from the first to the last key of an insert (an
   * empty key list fails, as reading its first element does), the start and end of a select,
   * the smallest begin and largest end key of a delete's ranges with the sentinel defaults 0
   * and Long.MAX_VALUE, and [0, Long.MAX_VALUE) for every other statement.
   */
  method TimeIntervalFromDataStatement(st: Statement) returns (r: Result<KeyInterval>)
    ensures st.InsertStatement? ==>
      if st.keys == [] then r.Failure?
      else r == Success(KeyInterval(st.keys[0], st.keys[|st.keys| - 1]))
    ensures st.SelectStatement? ==> r == Success(KeyInterval(st.startTime, st.endTime))
    ensures st.OtherStatement? ==> r == Success(KeyInterval(0, LONG_MAX))
    ensures st.DeleteStatement? ==> (r.Success? &&
      var ranges, iv := st.keyRanges, r.value;
      && (ranges == [] ==> iv == KeyInterval(0, LONG_MAX))
      && ((exists kr :: kr in ranges && kr.beginKey < LONG_MAX) ==> IsLeastBegin(iv.startKey, ranges))
      && ((forall kr :: kr in ranges ==> kr.beginKey == LONG_MAX) ==> iv.startKey == 0)
      && ((exists kr :: kr in ranges && kr.endKey > LONG_MIN) ==> IsGreatestEnd(iv.endKey, ranges))
      && ((forall kr :: kr in ranges ==> kr.endKey == LONG_MIN) ==> iv.endKey == LONG_MAX))
  {
    match st
    case InsertStatement(_, times) =>
      if times == [] {
        r := Failure("index out of bounds: the insert statement has no keys");
      } else {
        r := Success(KeyInterval(times[0], times[|times| - 1]));
      }
    case SelectStatement(_, startTime, endTime) =>
      r := Success(KeyInterval(startTime, endTime));
    case DeleteStatement(_, keyRanges) =>
      var startTime: Long, endTime: Long := LONG_MAX, LONG_MIN;
      for i := 0 to |keyRanges|
        invariant forall k :: 0 <= k < i ==> startTime <= keyRanges[k].beginKey
        invariant startTime == LONG_MAX || exists k :: 0 <= k < i && keyRanges[k].beginKey == startTime
        invariant forall k :: 0 <= k < i ==> keyRanges[k].endKey <= endTime
        invariant endTime == LONG_MIN || exists k :: 0 <= k < i && keyRanges[k].endKey == endTime
      {
        var keyRange := keyRanges[i];
        if keyRange.beginKey < startTime {
          startTime := keyRange.beginKey;
        }
        if keyRange.endKey > endTime {
          endTime := keyRange.endKey;
        }
      }
      var s := startTime;
      var e := endTime;
      startTime := if startTime == LONG_MAX then 0 else startTime;
      endTime := if endTime == LONG_MIN then LONG_MAX else endTime;
      r := Success(KeyInterval(startTime, endTime));
      if exists kr :: kr in keyRanges && kr.beginKey < LONG_MAX {
        var kr :| kr in keyRanges && kr.beginKey < LONG_MAX;
        assert s < LONG_MAX;
      }
      if exists kr :: kr in keyRanges && kr.endKey > LONG_MIN {
        var kr :| kr in keyRanges && kr.endKey > LONG_MIN;
        assert e > LONG_MIN;
      }
    case OtherStatement =>
      r := Success(KeyInterval(0, LONG_MAX));
  }
}
