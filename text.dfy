/** The handful of Python `str` operations the digest pipeline relies on:
    substring search, `str.split` / `str.join` / `str.replace` on a literal
    separator, `''.join(...)` and `str.strip()`. */
module Text {
  import opened Wrappers

  /** `p` occurs in `s` starting at index `i`. */
  predicate OccursAt(s: string, p: string, i: nat)
  {
    i + |p| <= |s| && s[i..i + |p|] == p
  }

  /** `p` occurs nowhere in `s`. */
  ghost predicate Absent(s: string, p: string)
  {
    forall i: nat :: !OccursAt(s, p, i)
  }

  /** At most one occurrence of `p` in `s`. */
  ghost predicate AtMostOnce(s: string, p: string)
  {
    forall i: nat, j: nat :: OccursAt(s, p, i) && OccursAt(s, p, j) ==> i == j
  }

  /** The leftmost occurrence of `p` in `s` at or after `from`
      (Python's `s.find(p, from)`, with -1 as None). */
  function IndexFrom(s: string, p: string, from: nat): (r: Option<nat>)
    requires |p| > 0
    ensures r.Some? ==> from <= r.value && OccursAt(s, p, r.value)
    ensures r.Some? ==> forall j: nat :: from <= j < r.value ==> !OccursAt(s, p, j)
    ensures r.None? ==> forall j: nat :: from <= j ==> !OccursAt(s, p, j)
    decreases |s| - from
  {
    if |s| < from + |p| then None
    else if OccursAt(s, p, from) then Some(from)
    else IndexFrom(s, p, from + 1)
  }

  /** The leftmost occurrence of `p` in `s`. */
  function IndexOf(s: string, p: string): (r: Option<nat>)
    requires |p| > 0
    ensures r.Some? ==> OccursAt(s, p, r.value)
    ensures r.Some? ==> forall j: nat :: j < r.value ==> !OccursAt(s, p, j)
    ensures r.None? <==> Absent(s, p)
  {
    IndexFrom(s, p, 0)
  }

  /** The rightmost occurrence of `p` in `s` at or before `hi`. */
  function LastAtOrBefore(s: string, p: string, hi: nat): (r: Option<nat>)
    ensures r.Some? ==> r.value <= hi && OccursAt(s, p, r.value)
    ensures r.Some? ==> forall j: nat :: r.value < j <= hi ==> !OccursAt(s, p, j)
    ensures r.None? ==> forall j: nat :: j <= hi ==> !OccursAt(s, p, j)
    decreases hi
  {
    if OccursAt(s, p, hi) then Some(hi)
    else if hi == 0 then None
    else LastAtOrBefore(s, p, hi - 1)
  }

  /** The rightmost occurrence of `p` in `s`. */
  function LastIndexOf(s: string, p: string): (r: Option<nat>)
    ensures r.Some? ==> OccursAt(s, p, r.value)
    ensures r.Some? ==> forall j: nat :: r.value < j ==> !OccursAt(s, p, j)
    ensures r.None? <==> Absent(s, p)
  {
    LastAtOrBefore(s, p, |s|)
  }

  /** Python's `s.split(sep)` for a non-empty literal separator: the pieces
      between the leftmost non-overlapping occurrences of `sep`. */
  function Split(s: string, sep: string): (r: seq<string>)
    requires |sep| > 0
    ensures |r| >= 1
    decreases |s|
  {
    match IndexOf(s, sep)
    case None => [s]
    case Some(i) => [s[..i]] + Split(s[i + |sep|..], sep)
  }

  /** Python's `sep.join(parts)`. */
  function Join(sep: string, parts: seq<string>): string
  {
    if |parts| == 0 then ""
    else if |parts| == 1 then parts[0]
    else parts[0] + sep + Join(sep, parts[1..])
  }

  /** Python's `''.join(parts)`. */
  function Concat(parts: seq<string>): string
  {
    if |parts| == 0 then "" else parts[0] + Concat(parts[1..])
  }

  /** Python's `s.replace(target, replacement)` for a non-empty `target`:
      every leftmost non-overlapping occurrence of `target` is replaced. */
  function Replace(s: string, target: string, replacement: string): string
    requires |target| > 0
  {
    Join(replacement, Split(s, target))
  }

  /** Python's `s.count(p)`: the number of leftmost non-overlapping
      occurrences of a non-empty `p`. */
  function Count(s: string, p: string): nat
    requires |p| > 0
    decreases |s|
  {
    match IndexOf(s, p)
    case None => 0
    case Some(i) => 1 + Count(s[i + |p|..], p)
  }

  /** An occurrence of `p` at `i` cuts `s` into three parts. */
  lemma Around(s: string, p: string, i: nat)
    requires OccursAt(s, p, i)
    ensures s == s[..i] + p + s[i + |p|..]
  {
    assert s[i..i + |p|] == p;
    assert s == s[..i] + s[i..i + |p|] + s[i + |p|..];
  }

  /** Two cut points split `s` into three consecutive slices. */
  lemma Slices(s: string, i: nat, j: nat)
    requires i <= j <= |s|
    ensures s == s[..i] + s[i..j] + s[j..]
  {
  }

  /** Re-association of a concatenation known in two stages: `whole` is
      `head` then `more`, and `more` is `x` then `y`. */
  lemma Regroup<T>(whole: seq<T>, head: seq<T>, more: seq<T>, x: seq<T>, y: seq<T>)
    requires whole == head + more && more == x + y
    ensures whole == (head + x) + y
  {
  }

  /** `''.join(parts)` is `Join` with the empty separator. */
  lemma {:induction false} ConcatIsJoin(parts: seq<string>)
    ensures Concat(parts) == Join("", parts)
  {
    if |parts| > 1 {
      ConcatIsJoin(parts[1..]);
    }
  }

  lemma ConcatCons2(a: string, b: string, rest: seq<string>)
    ensures Concat([a, b] + rest) == a + (b + Concat(rest))
  {
    assert ([a, b] + rest)[1..] == [b] + rest;
    assert ([b] + rest)[1..] == rest;
  }

  lemma JoinCons(sep: string, x: string, tail: seq<string>)
    requires |tail| >= 1
    ensures Join(sep, [x] + tail) == x + sep + Join(sep, tail)
  {
    assert ([x] + tail)[1..] == tail;
  }

  /** Splitting and joining on the same separator gives the string back. */
  lemma {:induction false} JoinSplit(s: string, sep: string)
    requires |sep| > 0
    ensures Join(sep, Split(s, sep)) == s
    decreases |s|
  {
    match IndexOf(s, sep)
    case None =>
    case Some(i) =>
      var rest := s[i + |sep|..];
      JoinSplit(rest, sep);
      JoinCons(sep, s[..i], Split(rest, sep));
      Around(s, sep, i);
  }

  /** `s.split(sep)` has one more piece than `s` has occurrences of `sep`. */
  lemma {:induction false} SplitCount(s: string, sep: string)
    requires |sep| > 0
    ensures |Split(s, sep)| == Count(s, sep) + 1
    decreases |s|
  {
    match IndexOf(s, sep)
    case None =>
    case Some(i) => SplitCount(s[i + |sep|..], sep);
  }

  /** No piece of `s.split(sep)` contains `sep`. */
  lemma {:induction false} SplitPiecesFree(s: string, sep: string)
    requires |sep| > 0
    ensures forall k :: 0 <= k < |Split(s, sep)| ==> Absent(Split(s, sep)[k], sep)
    decreases |s|
  {
    match IndexOf(s, sep)
    case None =>
    case Some(i) =>
      var rest := s[i + |sep|..];
      SplitPiecesFree(rest, sep);
      forall j: nat ensures !OccursAt(s[..i], sep, j) {
        if OccursAt(s[..i], sep, j) {
          assert s[..i][j..j + |sep|] == s[j..j + |sep|];
          assert OccursAt(s, sep, j);
        }
      }
  }

  /** When the first character of `sep` does not occur in `a`, the first
      occurrence of `sep` in `a + sep + b` is the one right after `a`. */
  lemma SplitAfter(a: string, sep: string, b: string)
    requires |sep| > 0 && sep[0] !in a
    ensures Split(a + sep + b, sep) == [a] + Split(b, sep)
  {
    var s := a + sep + b;
    assert s[|a|..|a| + |sep|] == sep;
    assert OccursAt(s, sep, |a|);
    forall j: nat | j < |a| ensures !OccursAt(s, sep, j) {
      assert s[j] == a[j];
      if j + |sep| <= |s| {
        assert s[j..j + |sep|][0] == s[j];
      }
    }
    assert IndexOf(s, sep) == Some(|a|);
    assert s[..|a|] == a;
    assert s[|a| + |sep|..] == b;
  }

  /** No occurrence of `sep` starts inside `a`, not even one that runs on
      into a copy of `sep` written right after it. */
  ghost predicate EndsCleanly(a: string, sep: string)
  {
    forall j: nat :: j < |a| ==> !OccursAt(a + sep, sep, j)
  }

  /** When `a` ends cleanly, the first occurrence of `sep` in `a + sep + b`
      is the one right after `a`. */
  lemma SplitAfterClean(a: string, sep: string, b: string)
    requires |sep| > 0 && EndsCleanly(a, sep)
    ensures Split(a + sep + b, sep) == [a] + Split(b, sep)
  {
    var s := a + sep + b;
    assert s[|a|..|a| + |sep|] == sep;
    assert OccursAt(s, sep, |a|);
    forall j: nat | j < |a| ensures !OccursAt(s, sep, j) {
      assert !OccursAt(a + sep, sep, j);
      if j + |sep| <= |s| {
        assert s[j..j + |sep|] == (a + sep)[j..j + |sep|];
      }
    }
    assert IndexOf(s, sep) == Some(|a|);
    assert s[..|a|] == a;
    assert s[|a| + |sep|..] == b;
  }

  /** A string without `sep` is a single piece. */
  lemma SplitAbsent(s: string, sep: string)
    requires |sep| > 0 && Absent(s, sep)
    ensures Split(s, sep) == [s]
  {
  }

  /** Splitting the join of pieces gives the pieces back when no piece
      holds the separator and none but the last runs into it. */
  lemma {:induction false} SplitJoinClean(parts: seq<string>, sep: string)
    requires |sep| > 0 && |parts| >= 1
    requires forall k :: 0 <= k < |parts| - 1 ==> EndsCleanly(parts[k], sep)
    requires Absent(parts[|parts| - 1], sep)
    ensures Split(Join(sep, parts), sep) == parts
  {
    if |parts| == 1 {
      SplitAbsent(parts[0], sep);
    } else {
      var tail := parts[1..];
      assert forall k :: 0 <= k < |tail| - 1 ==> tail[k] == parts[k + 1];
      SplitJoinClean(tail, sep);
      SplitAfterClean(parts[0], sep, Join(sep, tail));
      assert parts == [parts[0]] + tail;
    }
  }

  /** A string that does not contain the first character of `sep` is not
      split at all. */
  lemma SplitWhole(s: string, sep: string)
    requires |sep| > 0 && sep[0] !in s
    ensures Split(s, sep) == [s]
  {
    forall j: nat ensures !OccursAt(s, sep, j) {
      if j + |sep| <= |s| {
        assert s[j..j + |sep|][0] == s[j];
      }
    }
  }

  /** An occurrence inside a prefix is an occurrence in the whole string. */
  lemma OccursInPrefix(s: string, n: nat, p: string, k: nat)
    requires n <= |s| && OccursAt(s[..n], p, k)
    ensures OccursAt(s, p, k)
  {
    assert s[..n][k..k + |p|] == s[k..k + |p|];
  }

  /** A prefix has no more occurrences than the whole string. */
  lemma AtMostOncePrefix(s: string, n: nat, p: string)
    requires n <= |s| && AtMostOnce(s, p)
    ensures AtMostOnce(s[..n], p)
  {
    forall i: nat, j: nat | OccursAt(s[..n], p, i) && OccursAt(s[..n], p, j) ensures i == j {
      OccursInPrefix(s, n, p, i);
      OccursInPrefix(s, n, p, j);
    }
  }

  /** A one-character pattern is absent exactly when the character is. */
  lemma AbsentChar(s: string, c: char)
    ensures Absent(s, [c]) <==> c !in s
  {
    if c in s {
      var k :| 0 <= k < |s| && s[k] == c;
      assert s[k..k + 1] == [c];
      assert OccursAt(s, [c], k);
    }
    forall k: nat | k + 1 <= |s| ensures OccursAt(s, [c], k) ==> c in s {
      assert s[k..k + 1][0] == s[k];
    }
  }

  /** A character that is neither in the separator nor in any part is not
      in the joined string. */
  lemma {:induction false} JoinLacks(sep: string, parts: seq<string>, c: char)
    requires c !in sep && forall k :: 0 <= k < |parts| ==> c !in parts[k]
    ensures c !in Join(sep, parts)
  {
    if |parts| > 1 {
      JoinLacks(sep, parts[1..], c);
    }
  }

  /** Splitting a join of newline-free lines on the newline gives the lines
      back. */
  lemma {:induction false} SplitJoinLines(lines: seq<string>)
    requires |lines| >= 1 && forall k :: 0 <= k < |lines| ==> '\n' !in lines[k]
    ensures Split(Join("\n", lines), "\n") == lines
  {
    if |lines| == 1 {
      SplitWhole(lines[0], "\n");
    } else {
      SplitJoinLines(lines[1..]);
      SplitAfter(lines[0], "\n", Join("\n", lines[1..]));
      assert lines == [lines[0]] + lines[1..];
    }
  }

  /** No line of `s.split('\n')` contains a newline. */
  lemma LinesFree(s: string)
    ensures forall k :: 0 <= k < |Split(s, "\n")| ==> '\n' !in Split(s, "\n")[k]
  {
    SplitPiecesFree(s, "\n");
    forall k | 0 <= k < |Split(s, "\n")| ensures '\n' !in Split(s, "\n")[k] {
      AbsentChar(Split(s, "\n")[k], '\n');
    }
  }

  /** A pattern that occurs in none of the pieces does not occur in their
      join when no character of the separator occurs in the pattern: it
      cannot straddle a separator. */
  lemma {:induction false} JoinAbsent(sep: string, parts: seq<string>, p: string)
    requires |p| > 0 && |sep| > 0 && forall c :: c in sep ==> c !in p
    requires forall k :: 0 <= k < |parts| ==> Absent(parts[k], p)
    ensures Absent(Join(sep, parts), p)
  {
    if |parts| == 1 {
      assert Absent(parts[0], p);
    } else if |parts| > 1 {
      JoinAbsent(sep, parts[1..], p);
      var head, rest := parts[0], Join(sep, parts[1..]);
      AbsentAcross(head, sep, rest, p);
    }
  }

  lemma AbsentAcross(head: string, sep: string, rest: string, p: string)
    requires |p| > 0 && |sep| > 0 && forall c :: c in sep ==> c !in p
    requires Absent(head, p) && Absent(rest, p)
    ensures Absent(head + sep + rest, p)
  {
    var s := head + sep + rest;
    forall i: nat ensures !OccursAt(s, p, i) {
      if i + |p| <= |s| {
        if i + |p| <= |head| {
          assert s[i..i + |p|] == head[i..i + |p|];
          assert !OccursAt(head, p, i);
        } else if i < |head| + |sep| {
          var m: nat := i;
          if i < |head| {
            m := |head|;
          }
          assert i <= m < i + |p| && |head| <= m < |head| + |sep|;
          var c := sep[m - |head|];
          assert c in sep;
          assert s[i..i + |p|][m - i] == s[m] == c;
          assert p[m - i] in p && c !in p;
        } else {
          var o := i - |head| - |sep|;
          assert s[i..i + |p|] == rest[o..o + |p|];
          assert !OccursAt(rest, p, o);
        }
      }
    }
  }

  /** A pattern without a newline that occurs in none of the lines does not
      occur in their newline-join: it cannot straddle a line break. */
  lemma JoinLinesAbsent(lines: seq<string>, p: string)
    requires |p| > 0 && '\n' !in p
    requires forall k :: 0 <= k < |lines| ==> Absent(lines[k], p)
    ensures Absent(Join("\n", lines), p)
  {
    JoinAbsent("\n", lines, p);
  }

  /** Characters that Python's `str.isspace()` accepts, which `str.strip()`
      removes. */
  predicate IsSpace(c: char)
  {
    || ('\t' <= c <= '\r')
    || ('\U{1C}' <= c <= '\U{1F}')
    || c == ' ' || c == '\U{85}' || c == '\U{A0}' || c == '\U{1680}'
    || ('\U{2000}' <= c <= '\U{200A}')
    || c == '\U{2028}' || c == '\U{2029}' || c == '\U{202F}' || c == '\U{205F}'
    || c == '\U{3000}'
  }

  /** The number of whitespace characters at the start of `s`. */
  function LeadingSpace(s: string): (n: nat)
    ensures n <= |s|
    ensures forall i :: 0 <= i < n ==> IsSpace(s[i])
    ensures n < |s| ==> !IsSpace(s[n])
  {
    if |s| > 0 && IsSpace(s[0]) then 1 + LeadingSpace(s[1..]) else 0
  }

  /** The number of whitespace characters at the end of `s`. */
  function TrailingSpace(s: string): (n: nat)
    ensures n <= |s|
    ensures forall i :: |s| - n <= i < |s| ==> IsSpace(s[i])
    ensures n < |s| ==> !IsSpace(s[|s| - 1 - n])
  {
    if |s| > 0 && IsSpace(s[|s| - 1]) then 1 + TrailingSpace(s[..|s| - 1]) else 0
  }

  /** Python's `s.strip()`: `s` without its leading and trailing whitespace. */
  function Trim(s: string): (r: string)
    ensures |r| == 0 || (!IsSpace(r[0]) && !IsSpace(r[|r| - 1]))
    ensures LeadingSpace(s) + |r| <= |s|
    ensures r == s[LeadingSpace(s)..LeadingSpace(s) + |r|]
    ensures forall i :: 0 <= i < LeadingSpace(s) ==> IsSpace(s[i])
    ensures forall i :: LeadingSpace(s) + |r| <= i < |s| ==> IsSpace(s[i])
  {
    var t := s[LeadingSpace(s)..];
    t[..|t| - TrailingSpace(t)]
  }

  /** A string with no whitespace at either end is its own strip. */
  lemma TrimKeeps(s: string)
    requires |s| == 0 || (!IsSpace(s[0]) && !IsSpace(s[|s| - 1]))
    ensures Trim(s) == s
  {
  }

  /** One trailing space is stripped off a string with no whitespace at
      either end. */
  lemma TrimTrailingSpace(d: string)
    requires |d| == 0 || (!IsSpace(d[0]) && !IsSpace(d[|d| - 1]))
    ensures Trim(d + " ") == d
  {
    var s := d + " ";
    var r := Trim(s);
    var lead := LeadingSpace(s);
    assert IsSpace(s[|d|]);
    if |d| > 0 {
      assert !IsSpace(s[0]);
      assert lead == 0;
      assert !IsSpace(s[|d| - 1]);
      assert |d| <= |r|;
      assert r[|r| - 1] == s[|r| - 1];
      assert |r| <= |d|;
      assert r == s[..|d|] == d;
    } else {
      assert s == " ";
      assert lead == 1;
    }
  }

  /** `strip()` is idempotent. */
  lemma TrimTwice(s: string)
    ensures Trim(Trim(s)) == Trim(s)
  {
    TrimKeeps(Trim(s));
  }
}
