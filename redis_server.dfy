/**
 * The Redis server the key-value adapter talks to, as an in-memory keyspace. Each command is
 * a function on the keyspace; a command applied to a key holding another type fails, as
 * Redis answers WRONGTYPE; a hash or sorted set whose last member is removed disappears, as
 * Redis deletes empty aggregates.
 */
module RedisServer {
  import opened Wrappers

  /** A Redis value, by the type the TYPE command reports for it. */
  datatype Value =
    | StringValue(text: string)
    | ListValue(items: seq<string>)
    | SetValue(members: set<string>)
    | ZSetValue(scores: map<string, int>)
    | HashValue(fields: map<string, string>)

  type Keyspace = map<string, Value>

  const WRONG_TYPE := "WRONGTYPE Operation against a key holding the wrong kind of value"
  const WRONG_ARITY := "ERR wrong number of arguments"

  /** The reply of TYPE. */
  function TypeOf(ks: Keyspace, key: string): string
  {
    if key !in ks then "none"
    else match ks[key]
      case StringValue(_) => "string"
      case ListValue(_) => "list"
      case SetValue(_) => "set"
      case ZSetValue(_) => "zset"
      case HashValue(_) => "hash"
  }

  /** Redis glob matching, with `*` (any run of characters) as the one special character. */
  predicate GlobMatch(pattern: string, s: string)
    decreases |pattern| + |s|
  {
    if pattern == [] then s == []
    else if pattern[0] == '*' then GlobMatch(pattern[1..], s) || (s != [] && GlobMatch(pattern, s[1..]))
    else s != [] && s[0] == pattern[0] && GlobMatch(pattern[1..], s[1..])
  }

  lemma {:induction false} StarMatchesAll(s: string)
    ensures GlobMatch("*", s)
  {
    if s != [] {
      StarMatchesAll(s[1..]);
    }
  }

  /** A pattern followed by `*` matches the pattern's own text followed by anything. */
  lemma {:induction false} GlobPrefixMatches(p: string, t: string)
    ensures GlobMatch(p + "*", p + t)
  {
    if p == [] {
      assert p + "*" == "*" && p + t == t;
      StarMatchesAll(t);
    } else {
      GlobPrefixMatches(p[1..], t);
      assert (p + "*")[1..] == p[1..] + "*";
      assert (p + t)[1..] == p[1..] + t;
      if p[0] == '*' {
        assert GlobMatch((p + "*")[1..], (p + t)[1..]);
        assert GlobMatch(p + "*", (p + t)[1..]);
      }
    }
  }

  /** KEYS pattern. */
  function Keys(ks: Keyspace, pattern: string): set<string>
  {
    set k | k in ks && GlobMatch(pattern, k)
  }

  /** HGETALL: the fields of a hash; a missing key reads as an empty hash. */
  function HGetAll(ks: Keyspace, key: string): Result<map<string, string>>
  {
    if key !in ks then Success(map[])
    else if ks[key].HashValue? then Success(ks[key].fields)
    else Failure(WRONG_TYPE)
  }

  /** HGET: one field of a hash, None when the key or the field is missing. */
  function HGet(ks: Keyspace, key: string, field: string): Result<Option<string>>
  {
    if key !in ks then Success(None)
    else if !ks[key].HashValue? then Failure(WRONG_TYPE)
    else if field in ks[key].fields then Success(Some(ks[key].fields[field]))
    else Success(None)
  }

  /** The members of `scores` whose score lies in [lo, hi]. */
  function InRange(scores: map<string, int>, lo: int, hi: int): set<string>
  {
    set m | m in scores && lo <= scores[m] <= hi
  }

  /** `scores` without the members whose score lies in [lo, hi]. */
  function OutOfRange(scores: map<string, int>, lo: int, hi: int): map<string, int>
  {
    map m | m in scores && !(lo <= scores[m] <= hi) :: scores[m]
  }

  /** ZRANGEBYSCORE key lo hi: the members whose score lies in [lo, hi]. */
  function ZRangeByScore(ks: Keyspace, key: string, lo: int, hi: int): Result<set<string>>
  {
    if key in ks && !ks[key].ZSetValue? then Failure(WRONG_TYPE)
    else Success(InRange(ScoresAt(ks, key), lo, hi))
  }

  /** LLEN: the length of a list; a missing key counts as empty. */
  function LLen(ks: Keyspace, key: string): Result<nat>
  {
    if key !in ks then Success(0)
    else if ks[key].ListValue? then Success(|ks[key].items|)
    else Failure(WRONG_TYPE)
  }

  /** SCARD: the size of a set. */
  function SCard(ks: Keyspace, key: string): Result<nat>
  {
    if key !in ks then Success(0)
    else if ks[key].SetValue? then Success(|ks[key].members|)
    else Failure(WRONG_TYPE)
  }

  /** ZCARD: the size of a sorted set; a plain set is the wrong type. */
  function ZCard(ks: Keyspace, key: string): Result<nat>
  {
    if key !in ks then Success(0)
    else if ks[key].ZSetValue? then Success(|ks[key].scores|)
    else Failure(WRONG_TYPE)
  }

  /** HLEN: the number of fields of a hash. */
  function HLen(ks: Keyspace, key: string): Result<nat>
  {
    if key !in ks then Success(0)
    else if ks[key].HashValue? then Success(|ks[key].fields|)
    else Failure(WRONG_TYPE)
  }

  /** HSET key field value ...: adds or overwrites the fields; at least one field is required. */
  function HSet(ks: Keyspace, key: string, fields: map<string, string>): Result<Keyspace>
  {
    if fields == map[] then Failure(WRONG_ARITY)
    else if key in ks && !ks[key].HashValue? then Failure(WRONG_TYPE)
    else Success(ks[key := HashValue(FieldsAt(ks, key) + fields)])
  }

  /** ZADD key score member ...: adds the members or updates their scores. */
  function ZAdd(ks: Keyspace, key: string, scores: map<string, int>): Result<Keyspace>
  {
    if scores == map[] then Failure(WRONG_ARITY)
    else if key in ks && !ks[key].ZSetValue? then Failure(WRONG_TYPE)
    else Success(ks[key := ZSetValue(ScoresAt(ks, key) + scores)])
  }

  /** DEL key ...: removes the keys, whatever they hold. */
  function Del(ks: Keyspace, keys: set<string>): Keyspace
  {
    ks - keys
  }

  /** HDEL key field ...: removes the fields; the hash disappears once it is empty. */
  function HDel(ks: Keyspace, key: string, fields: set<string>): Result<Keyspace>
  {
    if key in ks && !ks[key].HashValue? then Failure(WRONG_TYPE)
    else
      var rest := FieldsAt(ks, key) - fields;
      if rest == map[] then Success(ks - {key}) else Success(ks[key := HashValue(rest)])
  }

  /** ZREMRANGEBYSCORE key lo hi: removes the members scored in [lo, hi]; an empty set disappears. */
  function ZRemRangeByScore(ks: Keyspace, key: string, lo: int, hi: int): Result<Keyspace>
  {
    if key in ks && !ks[key].ZSetValue? then Failure(WRONG_TYPE)
    else
      var rest := OutOfRange(ScoresAt(ks, key), lo, hi);
      if rest == map[] then Success(ks - {key}) else Success(ks[key := ZSetValue(rest)])
  }

  /** The fields of the hash at `key`, empty when the key is missing or holds something else. */
  function FieldsAt(ks: Keyspace, key: string): map<string, string>
  {
    if key in ks && ks[key].HashValue? then ks[key].fields else map[]
  }

  /** The members of the sorted set at `key`, empty when the key is missing or holds something else. */
  function ScoresAt(ks: Keyspace, key: string): map<string, int>
  {
    if key in ks && ks[key].ZSetValue? then ks[key].scores else map[]
  }

  /** Both keyspaces agree on every key outside `keys`. */
  ghost predicate SameExcept(a: Keyspace, b: Keyspace, keys: set<string>)
  {
    forall k :: k !in keys ==> (k in a <==> k in b) && (k in a ==> a[k] == b[k])
  }

  /**
   * HSET never removes a field: the key then holds a hash with every given field at its given
   * value, every other field it had unchanged, and nothing more; every key survives.
   */
  lemma HSetKeepsFields(ks: Keyspace, key: string, fields: map<string, string>)
    requires HSet(ks, key, fields).Success?
    ensures var after := HSet(ks, key, fields).value;
      && key in after && after[key].HashValue?
      && (forall f :: f in fields ==> f in after[key].fields && after[key].fields[f] == fields[f])
      && (forall f :: f in FieldsAt(ks, key) && f !in fields ==>
            f in after[key].fields && after[key].fields[f] == FieldsAt(ks, key)[f])
      && (forall f :: f in after[key].fields ==> f in fields || f in FieldsAt(ks, key))
      && (forall k :: k in ks ==> k in after)
  {
  }

  /**
   * ZADD never removes a member: the key then holds a sorted set with every given member at
   * its given score, every other member it had unchanged, and nothing more; every key survives.
   */
  lemma ZAddKeepsMembers(ks: Keyspace, key: string, scores: map<string, int>)
    requires ZAdd(ks, key, scores).Success?
    ensures var after := ZAdd(ks, key, scores).value;
      && key in after && after[key].ZSetValue?
      && (forall m :: m in scores ==> m in after[key].scores && after[key].scores[m] == scores[m])
      && (forall m :: m in ScoresAt(ks, key) && m !in scores ==>
            m in after[key].scores && after[key].scores[m] == ScoresAt(ks, key)[m])
      && (forall m :: m in after[key].scores ==> m in scores || m in ScoresAt(ks, key))
      && (forall k :: k in ks ==> k in after)
  {
  }

  /**
   * The server behind the connection pool. `reachable` says whether a connection can be
   * taken from the pool; when it cannot, every command of the adapter fails.
   */
  class Redis {
    var keyspace: Keyspace
    var reachable: bool

    constructor (keyspace: Keyspace, reachable: bool)
      ensures this.keyspace == keyspace && this.reachable == reachable
    {
      this.keyspace := keyspace;
      this.reachable := reachable;
    }

    /** Runs a command computed on the current keyspace: its new keyspace is kept when it succeeds. */
    method Run(command: Result<Keyspace>) returns (ok: bool)
      modifies this
      ensures ok == command.Success?
      ensures keyspace == if ok then command.value else old(keyspace)
      ensures reachable == old(reachable)
    {
      ok := command.Success?;
      if ok {
        keyspace := command.value;
      }
    }
  }
}
