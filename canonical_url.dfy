/** The three regular-expression substitutions that turn an extracted
    article link into the canonical URL used for deduplication and output:
    delete every `<` and `>`, collapse a redirect wrapper with the greedy
    `http.*http` -> `http`, and cut the string at the tracking marker
    `&ct=ga&`. A regex `.` does not match a newline, so the last two act on
    each line separately. */
module CanonicalUrl {
  import opened Wrappers
  import opened Text

  /** The scheme prefix that the collapse looks for. */
  const Scheme := "http"

  /** The tracking-parameter marker the URL is cut at. */
  const TrackingMarker := "&ct=ga&"

  /** `re.sub(r'[<>]', '', s)`: `s` without its angle brackets. */
  function StripAngles(s: string): (r: string)
    ensures '<' !in r && '>' !in r
    ensures forall c :: c in r ==> c in s
  {
    if s == [] then []
    else Kept(s[0]) + StripAngles(s[1..])
  }

  /** What the bracket deletion keeps of one character. */
  function Kept(c: char): string
  {
    if c == '<' || c == '>' then [] else [c]
  }

  /** Deleting brackets keeps every other character, as often as it
      occurred. */
  lemma {:induction false} StripAnglesCounts(s: string, c: char)
    requires c != '<' && c != '>'
    ensures multiset(StripAngles(s))[c] == multiset(s)[c]
  {
    if s != [] {
      StripAnglesCounts(s[1..], c);
      var h, t := Kept(s[0]), StripAngles(s[1..]);
      assert StripAngles(s) == h + t;
      CountAppend(h, t, c);
      CountCons(s, c);
      KeptCount(s[0], c);
    }
  }

  lemma CountCons(s: string, c: char)
    requires s != []
    ensures multiset(s)[c] == multiset([s[0]])[c] + multiset(s[1..])[c]
  {
    assert s == [s[0]] + s[1..];
    CountAppend([s[0]], s[1..], c);
  }

  lemma KeptCount(x: char, c: char)
    requires c != '<' && c != '>'
    ensures multiset(Kept(x))[c] == multiset([x])[c]
  {
  }

  lemma CountAppend(x: string, y: string, c: char)
    ensures multiset(x + y)[c] == multiset(x)[c] + multiset(y)[c]
  {
    assert multiset(x + y) == multiset(x) + multiset(y);
  }

  /** Deleting brackets from a concatenation deletes them from each part. */
  lemma {:induction false} StripAnglesAppend(a: string, b: string)
    ensures StripAngles(a + b) == StripAngles(a) + StripAngles(b)
  {
    if a != [] {
      var head := Kept(a[0]);
      assert (a + b)[0] == a[0];
      assert (a + b)[1..] == a[1..] + b;
      StripAnglesAppend(a[1..], b);
      Regroup(StripAngles(a + b), head, StripAngles(a[1..] + b), StripAngles(a[1..]), StripAngles(b));
    } else {
      assert a + b == b;
    }
  }

  /** A string without brackets is left alone. */
  lemma {:induction false} StripAnglesKeeps(s: string)
    requires '<' !in s && '>' !in s
    ensures StripAngles(s) == s
  {
    if s != [] {
      StripAnglesKeeps(s[1..]);
    }
  }

  /** Two occurrences of `http` never overlap. */
  lemma SchemeApart(s: string, a: nat, b: nat)
    requires OccursAt(s, Scheme, a) && a < b
    ensures OccursAt(s, Scheme, b) ==> a + |Scheme| <= b
  {
    if b < a + 4 {
      assert s[b] == s[a..a + 4][b - a] != 'h';
      if b + 4 <= |s| {
        assert s[b..b + 4][0] == s[b];
      }
    }
  }

  /** After the collapse, the text between the first `http` and the last
      one is gone, and a single `http` remains. */
  lemma CollapsedOnce(s: string, i: nat, j: nat)
    requires OccursAt(s, Scheme, i) && forall k: nat :: k < i ==> !OccursAt(s, Scheme, k)
    requires OccursAt(s, Scheme, j) && forall k: nat :: j < k ==> !OccursAt(s, Scheme, k)
    requires i + |Scheme| <= j
    ensures AtMostOnce(s[..i] + s[j..], Scheme)
  {
    var r := s[..i] + s[j..];
    assert |r| == i + |s| - j;
    forall k: nat ensures OccursAt(r, Scheme, k) ==> k == i {
      if k + 4 <= i {
        assert r[k..k + 4] == s[k..k + 4];
        assert !OccursAt(s, Scheme, k);
      } else if k < i && k + 4 <= |r| {
        assert r[i] == s[j] == s[j..j + 4][0] == 'h';
        assert r[k..k + 4][i - k] == r[i];
        assert Scheme[i - k] != 'h';
        assert !OccursAt(r, Scheme, k);
      } else if i < k && k + 4 <= |r| {
        assert r[k..k + 4] == s[j + (k - i)..j + (k - i) + 4];
        assert !OccursAt(s, Scheme, j + (k - i));
        assert !OccursAt(r, Scheme, k);
      }
    }
  }

  /** When the first and the last `http` coincide there is only one. */
  lemma OnlyOnce(s: string, i: nat, j: nat)
    requires OccursAt(s, Scheme, i) && forall k: nat :: k < i ==> !OccursAt(s, Scheme, k)
    requires OccursAt(s, Scheme, j) && forall k: nat :: j < k ==> !OccursAt(s, Scheme, k)
    requires j < i + |Scheme|
    ensures AtMostOnce(s, Scheme)
  {
    forall a: nat, b: nat | OccursAt(s, Scheme, a) && OccursAt(s, Scheme, b) ensures a == b {
      if a < b {
        SchemeApart(s, a, b);
      } else if b < a {
        SchemeApart(s, b, a);
      }
    }
  }

  /** `re.sub('http.*http', 'http', s)` on one line (no `\n`): the greedy
      match runs from the first `http` to the last one that starts at least
      four characters later, and is replaced by `http`. */
  function CollapseLine(s: string): (r: string)
    ensures forall c :: c in r ==> c in s
    ensures AtMostOnce(r, Scheme)
    ensures AtMostOnce(s, Scheme) ==> r == s
    ensures !AtMostOnce(s, Scheme) ==>
              IndexOf(s, Scheme).Some? && LastIndexOf(s, Scheme).Some? &&
              r == s[..IndexOf(s, Scheme).value] + s[LastIndexOf(s, Scheme).value..]
  {
    match IndexOf(s, Scheme)
    case None => s
    case Some(i) =>
      var j := LastIndexOf(s, Scheme).value;
      if i + |Scheme| <= j then
        CollapsedOnce(s, i, j);
        assert s[j..j + |Scheme|] == Scheme;
        assert s[..i] + Scheme + s[j + |Scheme|..] == s[..i] + s[j..];
        assert forall c :: c in s[..i] + s[j..] ==> c in s[..i] || c in s[j..];
        s[..i] + Scheme + s[j + |Scheme|..]
      else
        OnlyOnce(s, i, j);
        s
  }

  /** `re.sub('&ct=ga&.*', '', s)` on one line: the part before the first
      tracking marker. */
  function TruncateLine(s: string): (r: string)
    ensures |r| <= |s| && r == s[..|r|]
    ensures Absent(r, TrackingMarker)
    ensures Absent(s, TrackingMarker) ==> r == s
    ensures !Absent(s, TrackingMarker) ==> OccursAt(s, TrackingMarker, |r|)
    ensures forall k: nat :: k < |r| ==> !OccursAt(s, TrackingMarker, k)
  {
    match IndexOf(s, TrackingMarker)
    case None => s
    case Some(i) =>
      forall k: nat | OccursAt(s[..i], TrackingMarker, k) ensures false {
        OccursInPrefix(s, i, TrackingMarker, k);
      }
      s[..i]
  }

  /** Applies a one-line substitution to every `\n`-separated line. */
  function MapLines(f: string -> string, s: string): string
  {
    Join("\n", MapSeq(f, Split(s, "\n")))
  }

  function MapSeq(f: string -> string, lines: seq<string>): (r: seq<string>)
    ensures |r| == |lines| && forall k :: 0 <= k < |lines| ==> r[k] == f(lines[k])
  {
    seq(|lines|, k requires 0 <= k < |lines| => f(lines[k]))
  }

  /** `re.sub('http.*http', 'http', s)`. */
  function CollapseRedirect(s: string): string
  {
    MapLines(CollapseLine, s)
  }

  /** `re.sub('&ct=ga&.*', '', s)`. */
  function CutTracking(s: string): string
  {
    MapLines(TruncateLine, s)
  }

  /** The three substitutions applied to an extracted URL, in source order. */
  function Canonicalize(url: string): string
  {
    CutTracking(CollapseRedirect(StripAngles(url)))
  }

  /** The three substitutions on a single line. */
  function CanonicalLine(s: string): (r: string)
    ensures forall c :: c in r ==> c in s
  {
    TruncateLine(CollapseLine(StripAngles(s)))
  }

  lemma NoNewlineKept(a: string, b: string)
    requires forall c :: c in b ==> c in a
    requires '\n' !in a
    ensures '\n' !in b
  {
  }

  /** Mapping lines of a join of newline-free lines maps each line. */
  lemma MapLinesJoin(f: string -> string, lines: seq<string>)
    requires |lines| >= 1 && forall k :: 0 <= k < |lines| ==> '\n' !in lines[k]
    ensures MapLines(f, Join("\n", lines)) == Join("\n", MapSeq(f, lines))
  {
    SplitJoinLines(lines);
  }

  /** Deleting brackets commutes with joining lines. */
  lemma {:induction false} StripAnglesJoin(lines: seq<string>)
    ensures StripAngles(Join("\n", lines)) == Join("\n", MapSeq(StripAngles, lines))
  {
    if |lines| > 1 {
      StripAnglesJoin(lines[1..]);
      StripAnglesAppend(lines[0] + "\n", Join("\n", lines[1..]));
      StripAnglesAppend(lines[0], "\n");
      assert StripAngles("\n") == "\n";
      assert MapSeq(StripAngles, lines)[1..] == MapSeq(StripAngles, lines[1..]);
    }
  }

  /** Canonicalisation works line by line: each line of the URL is
      canonicalised on its own. */
  lemma CanonicalizeByLine(url: string)
    ensures Canonicalize(url) == Join("\n", MapSeq(CanonicalLine, Split(url, "\n")))
  {
    var lines := Split(url, "\n");
    LinesFree(url);
    JoinSplit(url, "\n");
    StripAnglesJoin(lines);
    var a := MapSeq(StripAngles, lines);
    forall k | 0 <= k < |a| ensures '\n' !in a[k] {
      NoNewlineKept(lines[k], a[k]);
    }
    MapLinesJoin(CollapseLine, a);
    var h := MapSeq(CollapseLine, a);
    forall k | 0 <= k < |h| ensures '\n' !in h[k] {
      NoNewlineKept(a[k], h[k]);
    }
    MapLinesJoin(TruncateLine, h);
    assert MapSeq(TruncateLine, h) == MapSeq(CanonicalLine, lines);
  }

  /** What canonicalisation guarantees on one line: no angle brackets, at
      most one `http`, no tracking marker, and a second pass changes
      nothing. */
  lemma CanonicalLineFacts(s: string)
    requires '\n' !in s
    ensures var r := CanonicalLine(s);
      && '<' !in r && '>' !in r
      && AtMostOnce(r, Scheme)
      && Absent(r, TrackingMarker)
      && CanonicalLine(r) == r
  {
    var a := StripAngles(s);
    var h := CollapseLine(a);
    var r := TruncateLine(h);
    NoNewlineKept(a, h);
    AtMostOncePrefix(h, |r|, Scheme);
    StripAnglesKeeps(r);
  }

  /** Every canonicalised line is clean and a fixed point. */
  lemma CanonicalLinesClean(lines: seq<string>)
    requires forall k :: 0 <= k < |lines| ==> '\n' !in lines[k]
    ensures forall k :: 0 <= k < |MapSeq(CanonicalLine, lines)| ==>
      && '\n' !in MapSeq(CanonicalLine, lines)[k]
      && '<' !in MapSeq(CanonicalLine, lines)[k] && '>' !in MapSeq(CanonicalLine, lines)[k]
      && Absent(MapSeq(CanonicalLine, lines)[k], TrackingMarker)
      && AtMostOnce(MapSeq(CanonicalLine, lines)[k], Scheme)
      && CanonicalLine(MapSeq(CanonicalLine, lines)[k]) == MapSeq(CanonicalLine, lines)[k]
  {
    var c := MapSeq(CanonicalLine, lines);
    forall k | 0 <= k < |c|
      ensures && '\n' !in c[k] && '<' !in c[k] && '>' !in c[k]
              && Absent(c[k], TrackingMarker) && AtMostOnce(c[k], Scheme)
              && CanonicalLine(c[k]) == c[k]
    {
      NoNewlineKept(lines[k], c[k]);
      CanonicalLineFacts(lines[k]);
    }
  }

  /** Canonicalising a canonical URL changes nothing, for every string. */
  lemma CanonicalizeIdempotent(url: string)
    ensures Canonicalize(Canonicalize(url)) == Canonicalize(url)
  {
    var lines := Split(url, "\n");
    LinesFree(url);
    CanonicalizeByLine(url);
    CanonicalLinesClean(lines);
    var c := MapSeq(CanonicalLine, lines);
    CanonicalizeByLine(Join("\n", c));
    SplitJoinLines(c);
    assert MapSeq(CanonicalLine, c) == c;
  }

  /** A canonical URL has no angle brackets and no tracking marker, and
      each of its lines holds `http` at most once. */
  lemma CanonicalizeFacts(url: string)
    ensures var r := Canonicalize(url);
      && '<' !in r && '>' !in r
      && Absent(r, TrackingMarker)
      && forall k :: 0 <= k < |Split(r, "\n")| ==> AtMostOnce(Split(r, "\n")[k], Scheme)
  {
    var lines := Split(url, "\n");
    LinesFree(url);
    CanonicalizeByLine(url);
    CanonicalLinesClean(lines);
    JoinedClean(MapSeq(CanonicalLine, lines));
  }

  /** Clean lines joined with newlines stay clean, line by line. */
  lemma JoinedClean(c: seq<string>)
    requires |c| >= 1
    requires forall k :: 0 <= k < |c| ==>
      && '\n' !in c[k] && '<' !in c[k] && '>' !in c[k]
      && Absent(c[k], TrackingMarker) && AtMostOnce(c[k], Scheme)
    ensures '<' !in Join("\n", c) && '>' !in Join("\n", c)
    ensures Absent(Join("\n", c), TrackingMarker)
    ensures forall k :: 0 <= k < |Split(Join("\n", c), "\n")| ==> AtMostOnce(Split(Join("\n", c), "\n")[k], Scheme)
  {
    JoinLacks("\n", c, '<');
    JoinLacks("\n", c, '>');
    JoinLinesAbsent(c, TrackingMarker);
    SplitJoinLines(c);
  }

  /** A link on one line is canonicalised as that line. */
  lemma CanonicalizeOneLine(s: string)
    requires '\n' !in s
    ensures Canonicalize(s) == CanonicalLine(s)
  {
    CanonicalizeByLine(s);
    SplitWhole(s, "\n");
  }

  /** Clean links: one line, no brackets, `http` at most once, no
      tracking marker. */
  ghost predicate Clean(u: string)
  {
    '\n' !in u && '<' !in u && '>' !in u && AtMostOnce(u, Scheme) && Absent(u, TrackingMarker)
  }

  /** A clean link is its own canonical form, and so is the same link
      between angle brackets. */
  lemma AnglesRemoved(u: string)
    requires Clean(u)
    ensures Canonicalize(u) == u
    ensures Canonicalize("<" + u + ">") == u
  {
    StripAnglesKeeps(u);
    CanonicalizeOneLine(u);
    BracketsStripped(u);
    CanonicalizeOneLine("<" + u + ">");
  }

  /** Deleting the brackets of a bracketed bracket-free string. */
  lemma BracketsStripped(u: string)
    requires '<' !in u && '>' !in u
    ensures StripAngles("<" + u + ">") == u
  {
    var a := "<" + u;
    StripAnglesKeeps(u);
    assert a[0] == '<' && a[1..] == u;
    assert StripAngles(a) == u;
    var b := ">";
    assert b[0] == '>' && b[1..] == [];
    assert StripAngles(b) == [];
    StripAnglesAppend(a, b);
  }

  /** With `http` at the start and last at `j`, four or more characters
      on, the collapse keeps the text from `j`. */
  lemma CollapseFromStart(s: string, j: nat)
    requires OccursAt(s, Scheme, 0) && OccursAt(s, Scheme, j) && |Scheme| <= j
    requires forall k: nat :: j < k ==> !OccursAt(s, Scheme, k)
    ensures CollapseLine(s) == s[j..]
  {
    assert IndexOf(s, Scheme).value == 0;
    assert LastIndexOf(s, Scheme).value == j;
    assert !AtMostOnce(s, Scheme);
  }

  /** With the first tracking marker at `i`, the cut keeps what precedes it. */
  lemma CutAtFirst(s: string, i: nat)
    requires OccursAt(s, TrackingMarker, i)
    requires forall k: nat :: k < i ==> !OccursAt(s, TrackingMarker, k)
    ensures TruncateLine(s) == s[..i]
  {
    assert IndexOf(s, TrackingMarker) == Some(i);
  }

  lemma RedirectOccurrences(w: string, u: string)
    requires OccursAt(w, Scheme, 0) && AtMostOnce(u, Scheme) && OccursAt(u, Scheme, 0)
    ensures OccursAt(w + u, Scheme, 0) && OccursAt(w + u, Scheme, |w|) && |Scheme| <= |w|
    ensures forall k: nat :: |w| < k ==> !OccursAt(w + u, Scheme, k)
  {
    var s := w + u;
    assert s[..4] == w[..4];
    assert s[|w|..|w| + 4] == u[..4];
    forall k: nat ensures |w| < k ==> !OccursAt(s, Scheme, k) {
      if |w| < k && k + 4 <= |s| {
        assert s[k..k + 4] == u[k - |w|..k - |w| + 4];
        assert OccursAt(u, Scheme, k - |w|) ==> k - |w| == 0;
      }
    }
  }

  /** A redirect link `w` wrapping a clean target `u` that starts with
      `http` canonicalises to the target. */
  lemma RedirectUnwrapped(w: string, u: string)
    requires OccursAt(w, Scheme, 0) && '\n' !in w && '<' !in w && '>' !in w
    requires Clean(u) && OccursAt(u, Scheme, 0)
    ensures Canonicalize(w + u) == u
  {
    var s := w + u;
    assert '\n' !in s && '<' !in s && '>' !in s;
    StripAnglesKeeps(s);
    CanonicalizeOneLine(s);
    RedirectOccurrences(w, u);
    CollapseFromStart(s, |w|);
    assert s[|w|..] == u;
  }

  /** `u` ends with the marker less its closing `&`, so that appending the
      marker would complete an earlier occurrence of it. */
  predicate EndsInPartialMarker(u: string)
  {
    |u| >= 6 && u[|u| - 6..] == TrackingMarker[..6]
  }

  lemma TrackedOccurrences(u: string, t: string)
    requires AtMostOnce(u, Scheme) && Absent(u, TrackingMarker) && !EndsInPartialMarker(u)
    requires Absent(t, Scheme)
    ensures AtMostOnce(u + TrackingMarker + t, Scheme)
    ensures OccursAt(u + TrackingMarker + t, TrackingMarker, |u|)
    ensures forall k: nat :: k < |u| ==> !OccursAt(u + TrackingMarker + t, TrackingMarker, k)
  {
    var s := u + TrackingMarker + t;
    var m := |u| + |TrackingMarker|;
    forall k: nat ensures OccursAt(s, Scheme, k) ==> OccursAt(u, Scheme, k) {
      if k + 4 <= |u| {
        assert s[k..k + 4] == u[k..k + 4];
      } else if k < |u| && k + 4 <= |s| {
        assert s[k..k + 4][|u| - k] == s[|u|] == '&';
      } else if k < m && k + 4 <= |s| {
        assert s[k] == TrackingMarker[k - |u|];
        assert TrackingMarker[k - |u|] in TrackingMarker && 'h' !in TrackingMarker;
        assert s[k..k + 4][0] == s[k];
      } else if k + 4 <= |s| {
        assert s[k..k + 4] == t[k - m..k - m + 4];
        assert !OccursAt(t, Scheme, k - m);
      }
    }
    assert s[|u|..|u| + 7] == TrackingMarker;
    forall k: nat ensures k < |u| ==> !OccursAt(s, TrackingMarker, k) {
      if k < |u| && k + 7 <= |s| {
        if k + 7 <= |u| {
          assert s[k..k + 7] == u[k..k + 7];
          assert !OccursAt(u, TrackingMarker, k);
        } else if k + 6 == |u| {
          assert s[k..k + 7][..6] == u[|u| - 6..];
        } else {
          assert s[k..k + 7][|u| - k] == s[|u|] == '&';
          assert TrackingMarker[|u| - k] != '&';
        }
      }
    }
  }

  /** A clean link that does not end in `&ct=ga`, followed by the tracking
      marker and a tail without `http`, brackets or newlines, canonicalises
      to the link. */
  lemma TrackingCut(u: string, t: string)
    requires Clean(u) && !EndsInPartialMarker(u)
    requires Absent(t, Scheme) && '\n' !in t && '<' !in t && '>' !in t
    ensures Canonicalize(u + TrackingMarker + t) == u
  {
    var s := u + TrackingMarker + t;
    assert '\n' !in s && '<' !in s && '>' !in s;
    StripAnglesKeeps(s);
    CanonicalizeOneLine(s);
    TrackedOccurrences(u, t);
    CutAtFirst(s, |u|);
    assert s[..|u|] == u;
  }
}
