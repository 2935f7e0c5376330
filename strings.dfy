/**
 * The java.lang.String operations the core relies on: substring search, splitting on a
 * single-character separator (with Java's removal of trailing empty strings), joining,
 * lexicographic comparison, insertion into a sorted set, and decimal rendering of an index.
 */
module Strings {

  /** `s.contains(sub)`. */
  predicate Contains(s: string, sub: string)
    decreases |s|
  {
    if |sub| > |s| then false
    else s[..|sub|] == sub || (|s| > 0 && Contains(s[1..], sub))
  }

  /** Every piece between two occurrences of `c`, including empty pieces at either end. */
  function SplitAll(s: string, c: char): (parts: seq<string>)
    ensures |parts| >= 1
    ensures forall i :: 0 <= i < |parts| ==> c !in parts[i]
  {
    if s == [] then [""]
    else if s[0] == c then [""] + SplitAll(s[1..], c)
    else
      var rest := SplitAll(s[1..], c);
      [[s[0]] + rest[0]] + rest[1..]
  }

  /** Removes the empty strings at the end of `parts`, as `String.split` with limit 0 does. */
  function DropTrailingEmpty(parts: seq<string>): (r: seq<string>)
    ensures |r| <= |parts| && r == parts[..|r|]
    ensures r == [] || r[|r| - 1] != ""
    ensures forall i :: |r| <= i < |parts| ==> parts[i] == ""
  {
    if parts != [] && parts[|parts| - 1] == "" then DropTrailingEmpty(parts[..|parts| - 1])
    else parts
  }

  /**
   * `s.split(regex)` where the regex matches exactly the character `c`: the whole string when
   * `c` does not occur, otherwise every piece with the trailing empty pieces removed.
   */
  function JavaSplit(s: string, c: char): (r: seq<string>)
    ensures forall i :: 0 <= i < |r| ==> c !in r[i]
    ensures c !in s ==> r == [s]
    ensures c in s ==> r == [] || r[|r| - 1] != ""
  {
    if c !in s then [s] else DropTrailingEmpty(SplitAll(s, c))
  }

  /** `String.join(sep, parts)`. */
  function Join(parts: seq<string>, sep: string): string
  {
    if |parts| == 0 then ""
    else if |parts| == 1 then parts[0]
    else parts[0] + sep + Join(parts[1..], sep)
  }

  /** Joining the pieces of a split with the separator gives back the string. */
  lemma {:induction false} JoinSplitAll(s: string, c: char)
    ensures Join(SplitAll(s, c), [c]) == s
  {
    if s == [] {
    } else if s[0] == c {
      JoinSplitAll(s[1..], c);
      assert s == [c] + s[1..];
    } else {
      var rest := SplitAll(s[1..], c);
      JoinSplitAll(s[1..], c);
      if |rest| > 1 {
        assert Join(rest, [c]) == rest[0] + [c] + Join(rest[1..], [c]);
        assert s == [s[0]] + s[1..];
      } else {
        assert s == [s[0]] + s[1..];
      }
    }
  }

  /** Every piece occurs in the joined string, between what precedes and what follows it. */
  lemma {:induction false} JoinInfix(parts: seq<string>, sep: string, i: nat) returns (pre: string, post: string)
    requires i < |parts|
    ensures Join(parts, sep) == pre + parts[i] + post
    decreases i
  {
    if i == 0 {
      pre := "";
      post := if |parts| == 1 then "" else sep + Join(parts[1..], sep);
    } else {
      var p, q := JoinInfix(parts[1..], sep, i - 1);
      pre, post := parts[0] + sep + p, q;
    }
  }

  /** A string contains every string it is made around. */
  lemma {:induction false} ContainsInfix(a: string, x: string, b: string)
    ensures Contains(a + x + b, x)
    decreases |a|
  {
    var s := a + x + b;
    if a == [] {
      assert s[..|x|] == x;
    } else {
      assert s[1..] == a[1..] + x + b;
      ContainsInfix(a[1..], x, b);
    }
  }

  /** Appending a piece to a non-empty list appends the separator and the piece to the join. */
  lemma {:induction false} JoinSnoc(parts: seq<string>, x: string, sep: string)
    requires parts != []
    ensures Join(parts + [x], sep) == Join(parts, sep) + sep + x
    decreases |parts|
  {
    if |parts| == 1 {
      assert (parts + [x])[1..] == [x];
    } else {
      assert (parts + [x])[1..] == parts[1..] + [x];
      JoinSnoc(parts[1..], x, sep);
    }
  }

  /** Joining a non-empty prefix of the pieces gives a prefix of the joined string. */
  lemma {:induction false} JoinPrefix(parts: seq<string>, k: nat, sep: string)
    requires 1 <= k <= |parts|
    ensures Join(parts[..k], sep) <= Join(parts, sep)
  {
    if k < |parts| {
      assert Join(parts, sep) == parts[0] + sep + Join(parts[1..], sep);
      if k == 1 {
        assert parts[..k] == [parts[0]];
        var rest := sep + Join(parts[1..], sep);
        assert Join(parts, sep) == parts[0] + rest;
        assert (parts[0] + rest)[..|parts[0]|] == parts[0];
      } else {
        JoinPrefix(parts[1..], k - 1, sep);
        assert parts[..k][1..] == parts[1..][..k - 1];
        var tail := Join(parts[1..][..k - 1], sep);
        assert Join(parts[..k], sep) == parts[0] + sep + tail;
        assert tail <= Join(parts[1..], sep);
        assert Join(parts[1..], sep) == tail + Join(parts[1..], sep)[|tail|..];
        assert Join(parts, sep) == (parts[0] + sep + tail) + Join(parts[1..], sep)[|tail|..];
      }
    } else {
      assert parts[..k] == parts;
    }
  }

  /** A separator ends the first piece: the rest of the string is split on its own. */
  lemma {:induction false} SplitAllAfterFirst(a: string, c: char, b: string)
    requires c !in a
    ensures SplitAll(a + [c] + b, c) == [a] + SplitAll(b, c)
  {
    if a == [] {
      assert a + [c] + b == [c] + b;
    } else {
      var whole := a + [c] + b;
      assert whole[0] == a[0] && whole[0] != c;
      assert whole[1..] == a[1..] + [c] + b;
      SplitAllAfterFirst(a[1..], c, b);
      var rest := SplitAll(whole[1..], c);
      assert rest == [a[1..]] + SplitAll(b, c);
      assert SplitAll(whole, c) == [[a[0]] + rest[0]] + rest[1..];
      assert [a[0]] + a[1..] == a;
    }
  }

  /** A string without the separator is a single piece. */
  lemma {:induction false} SplitAllNoSeparator(a: string, c: char)
    requires c !in a
    ensures SplitAll(a, c) == [a]
  {
    if a != [] {
      SplitAllNoSeparator(a[1..], c);
      assert a == [a[0]] + a[1..];
    }
  }

  /**
   * Where a character falls in Java's UTF-16 order. A Java string compares code unit by code
   * unit, and a character above U+FFFF is stored as a surrogate pair whose first unit lies in
   * D800-DBFF: such a character sorts after every character below U+D800 and before every
   * character in U+E000-U+FFFF. Characters of the same plane keep their code point order.
   */
  function Utf16Rank(c: char): (r: int)
    ensures (c as int < 0xD800 || c as int >= 0x1_0000) ==> r == c as int
    ensures 0xD800 <= c as int < 0x1_0000 ==> r > 0x10_FFFF
  {
    if 0xD800 <= c as int < 0x1_0000 then c as int + 0x11_0000 else c as int
  }

  /** Distinct characters take distinct places in the UTF-16 order. */
  lemma Utf16RankInjective(a: char, b: char)
    requires a != b
    ensures Utf16Rank(a) != Utf16Rank(b)
  {
  }

  /**
   * Java's `String.compareTo(...) < 0`: lexicographic order over UTF-16 code units, a proper
   * prefix first.
   */
  predicate StrLess(a: string, b: string)
  {
    if a == [] then b != []
    else if b == [] then false
    else if a[0] != b[0] then Utf16Rank(a[0]) < Utf16Rank(b[0])
    else StrLess(a[1..], b[1..])
  }

  /**
   * A character beyond the Basic Multilingual Plane sorts before U+FFFF, as its high
   * surrogate does, although its code point is larger.
   */
  lemma SupplementaryBeforePrivateUse()
    ensures StrLess("\U{10000}", "\U{FFFF}") && !StrLess("\U{FFFF}", "\U{10000}")
    ensures StrLess("\U{D7FF}", "\U{10000}")
  {
  }

  lemma {:induction false} StrLessIrreflexive(a: string)
    ensures !StrLess(a, a)
  {
    if a != [] {
      StrLessIrreflexive(a[1..]);
    }
  }

  lemma {:induction false} StrLessTransitive(a: string, b: string, c: string)
    requires StrLess(a, b) && StrLess(b, c)
    ensures StrLess(a, c)
  {
    if a != [] && b != [] && c != [] && a[0] == b[0] == c[0] {
      StrLessTransitive(a[1..], b[1..], c[1..]);
    }
  }

  lemma {:induction false} StrLessTotal(a: string, b: string)
    requires a != b
    ensures StrLess(a, b) != StrLess(b, a)
  {
    if a != [] && b != [] && a[0] == b[0] {
      assert a[1..] != b[1..] by {
        assert a == [a[0]] + a[1..] && b == [b[0]] + b[1..];
      }
      StrLessTotal(a[1..], b[1..]);
    } else if a != [] && b != [] {
      Utf16RankInjective(a[0], b[0]);
    }
  }

  /** Strictly ascending, hence free of duplicates. */
  ghost predicate StrictlySorted(s: seq<string>)
  {
    forall i, j :: 0 <= i < j < |s| ==> StrLess(s[i], s[j])
  }

  lemma ConsSorted(h: string, t: seq<string>)
    requires StrictlySorted(t)
    requires forall y :: y in t ==> StrLess(h, y)
    ensures StrictlySorted([h] + t)
  {
    var s := [h] + t;
    forall i, j | 0 <= i < j < |s| ensures StrLess(s[i], s[j]) {
      if i > 0 {
        assert s[i] == t[i - 1] && s[j] == t[j - 1];
      } else {
        assert s[j] == t[j - 1];
      }
    }
  }

  /** `TreeSet.add`: inserts `x` at its place unless it is already present. */
  function SortedInsert(s: seq<string>, x: string): (r: seq<string>)
    requires StrictlySorted(s)
    ensures StrictlySorted(r)
    ensures forall y :: y in r <==> y in s || y == x
    ensures x in s ==> r == s
  {
    if s == [] then [x]
    else if x == s[0] then s
    else if StrLess(x, s[0]) then
      BelowHeadBelowAll(x, s);
      StrLessIrreflexive(x);
      ConsSorted(x, s);
      [x] + s
    else
      StrLessTotal(x, s[0]);
      var rest := SortedInsert(s[1..], x);
      assert forall y :: y in s[1..] ==> StrLess(s[0], y) by {
        forall y | y in s[1..] ensures StrLess(s[0], y) {
          var j :| 0 <= j < |s[1..]| && s[1..][j] == y;
          assert s[j + 1] == y;
        }
      }
      ConsSorted(s[0], rest);
      assert s == [s[0]] + s[1..];
      [s[0]] + rest
  }

  lemma BelowHeadBelowAll(x: string, s: seq<string>)
    requires StrictlySorted(s) && s != [] && StrLess(x, s[0])
    ensures forall y :: y in s ==> StrLess(x, y)
  {
    forall y | y in s ensures StrLess(x, y) {
      var j :| 0 <= j < |s| && s[j] == y;
      if j > 0 {
        StrLessTransitive(x, s[0], s[j]);
      }
    }
  }

  /**
   * `new ArrayList<>(keys)` followed by `sort(String::compareTo)`: the keys in ascending order.
   * The keys are taken in an unspecified order, as a hash set yields them.
   */
  method SortedList(keys: set<string>) returns (r: seq<string>)
    ensures StrictlySorted(r)
    ensures forall y :: y in r <==> y in keys
  {
    r := [];
    var rest := keys;
    while rest != {}
      invariant StrictlySorted(r)
      invariant rest <= keys
      invariant forall y :: y in r <==> y in keys - rest
      decreases rest
    {
      var k :| k in rest;
      r := SortedInsert(r, k);
      rest := rest - {k};
    }
  }

  /** The decimal digit `d`. */
  function Digit(d: nat): char
    requires d < 10
  {
    (('0' as int) + d) as char
  }

  /** `String.valueOf(n)` for a non-negative `n`. */
  function NatToString(n: nat): (s: string)
    ensures |s| >= 1
    ensures n >= 10 ==> |s| >= 2
  {
    if n < 10 then [Digit(n)] else NatToString(n / 10) + [Digit(n % 10)]
  }

  /** Distinct indices are rendered as distinct strings. */
  lemma {:induction false} NatToStringInjective(a: nat, b: nat)
    requires NatToString(a) == NatToString(b)
    ensures a == b
  {
    if a >= 10 && b >= 10 {
      var sa, sb := NatToString(a), NatToString(b);
      assert sa[..|sa| - 1] == NatToString(a / 10);
      assert sb[..|sb| - 1] == NatToString(b / 10);
      assert Digit(a % 10) == sa[|sa| - 1] == sb[|sb| - 1] == Digit(b % 10);
      NatToStringInjective(a / 10, b / 10);
    }
  }
}
