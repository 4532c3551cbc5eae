/** Splitting one digest e-mail body into article records. The body is cut
    with the capturing regex `(===|- - - )`, which keeps the delimiters in
    the result; piece 4 holds the article list. That piece is cut at blank
    lines (`\r\n\r\n`), the first and last chunks are dropped, and each
    remaining chunk becomes one article: its last `\r\n`-line is the link,
    the lines before it, glued together, are the summary. */
module ArticleExtraction {
  import opened Wrappers
  import opened Text

  /** The two section delimiters, in the order the regex alternation tries
      them. */
  const Rule := "==="
  const DashRule := "- - - "

  /** Index of the article section in the delimiter-keeping split: the text
      after the second delimiter. */
  const ArticleSectionIndex := 4

  const BlockSeparator := "\r\n\r\n"
  const LineBreak := "\r\n"

  /** One article: its summary text (the source's `body` key) and its link. */
  datatype Article = Article(body: string, url: string)

  /** The length of the delimiter the regex matches at index `i` of `s`,
      or 0 when neither alternative matches there. */
  function DelimiterAt(s: string, i: nat): nat
  {
    if OccursAt(s, Rule, i) then |Rule|
    else if OccursAt(s, DashRule, i) then |DashRule|
    else 0
  }

  /** The leftmost index at or after `from` where a delimiter matches. */
  function FirstDelimiterFrom(s: string, from: nat): (r: Option<nat>)
    ensures r.Some? ==> from <= r.value && DelimiterAt(s, r.value) > 0
    ensures r.Some? ==> forall j: nat :: from <= j < r.value ==> DelimiterAt(s, j) == 0
    ensures r.None? ==> forall j: nat :: from <= j ==> DelimiterAt(s, j) == 0
    decreases |s| - from
  {
    if from >= |s| then None
    else if DelimiterAt(s, from) > 0 then Some(from)
    else FirstDelimiterFrom(s, from + 1)
  }

  /** `re.split('(===|- - - )', s)`: the text pieces, with each matched
      delimiter kept as a piece of its own between them. */
  function SplitKeeping(s: string): seq<string>
    decreases |s|
  {
    match FirstDelimiterFrom(s, 0)
    case None => [s]
    case Some(i) =>
      var n := DelimiterAt(s, i);
      [s[..i], s[i..i + n]] + SplitKeeping(s[i + n..])
  }

  /** The number of delimiters the regex finds in `s` (leftmost,
      non-overlapping). */
  function DelimiterCount(s: string): nat
    decreases |s|
  {
    match FirstDelimiterFrom(s, 0)
    case None => 0
    case Some(i) => 1 + DelimiterCount(s[i + DelimiterAt(s, i)..])
  }

  /** A string in which the regex finds no delimiter. */
  ghost predicate DelimiterFree(s: string)
  {
    forall j: nat :: DelimiterAt(s, j) == 0
  }

  /** The text before the first delimiter contains none. */
  lemma PrefixDelimiterFree(s: string, i: nat)
    requires i <= |s| && forall j: nat :: j < i ==> DelimiterAt(s, j) == 0
    ensures DelimiterFree(s[..i])
  {
    forall j: nat ensures DelimiterAt(s[..i], j) == 0 {
      if j + |Rule| <= i {
        assert s[..i][j..j + |Rule|] == s[j..j + |Rule|];
        assert DelimiterAt(s, j) == 0;
      }
      if j + |DashRule| <= i {
        assert s[..i][j..j + |DashRule|] == s[j..j + |DashRule|];
        assert DelimiterAt(s, j) == 0;
      }
    }
  }

  /** The pieces of the delimiter-keeping split glue back to the input. */
  lemma {:induction false} SplitKeepingConcat(s: string)
    ensures Concat(SplitKeeping(s)) == s
    decreases |s|
  {
    match FirstDelimiterFrom(s, 0)
    case None =>
      assert Concat([s]) == s + Concat([]);
    case Some(i) =>
      var n := DelimiterAt(s, i);
      SplitKeepingConcat(s[i + n..]);
      Slices(s, i, i + n);
      ConcatLeadingPair(s[..i], s[i..i + n], s[i + n..], SplitKeeping(s[i + n..]), s);
  }

  /** Two leading pieces in front of pieces that concatenate to `c`. */
  lemma ConcatLeadingPair(a: string, b: string, c: string, rest: seq<string>, s: string)
    requires Concat(rest) == c && s == a + b + c
    ensures Concat([a, b] + rest) == s
  {
    ConcatCons2(a, b, rest);
  }

  /** Odd pieces are delimiters, even pieces contain none. */
  ghost predicate Alternating(r: seq<string>)
  {
    && (forall k :: 0 <= k < |r| && k % 2 == 1 ==> r[k] == Rule || r[k] == DashRule)
    && (forall k :: 0 <= k < |r| && k % 2 == 0 ==> DelimiterFree(r[k]))
  }

  lemma AlternatingCons(p: string, d: string, rest: seq<string>)
    requires DelimiterFree(p) && (d == Rule || d == DashRule) && Alternating(rest)
    ensures Alternating([p, d] + rest)
  {
    var r := [p, d] + rest;
    forall k | 2 <= k < |r| ensures r[k] == rest[k - 2] {
    }
  }

  /** The split has two pieces per delimiter plus one; the odd pieces are
      the delimiters and the even pieces contain none. */
  lemma {:induction false} SplitKeepingShape(s: string)
    ensures |SplitKeeping(s)| == 2 * DelimiterCount(s) + 1
    ensures Alternating(SplitKeeping(s))
    decreases |s|
  {
    match FirstDelimiterFrom(s, 0)
    case None =>
      assert DelimiterFree(s);
    case Some(i) =>
      var n := DelimiterAt(s, i);
      SplitKeepingShape(s[i + n..]);
      PrefixDelimiterFree(s, i);
      assert s[i..i + n] == Rule || s[i..i + n] == DashRule;
      AlternatingCons(s[..i], s[i..i + n], SplitKeeping(s[i + n..]));
  }

  /** No delimiter match starts inside `p`, not even one that runs on into
      the delimiter `d` written right after it. */
  ghost predicate NoDelimiterBefore(p: string, d: string)
  {
    forall j: nat :: j < |p| ==> DelimiterAt(p + d, j) == 0
  }

  /** What follows a delimiter cannot change a match that starts before
      it: a dash rule running past `===` would have to match an `=`. */
  lemma DelimiterLocal(p: string, d: string, rest: string, j: nat)
    requires (d == Rule || d == DashRule) && j < |p|
    ensures DelimiterAt(p + d + rest, j) == DelimiterAt(p + d, j)
  {
    var s, t := p + d + rest, p + d;
    assert s[j..j + |Rule|] == t[j..j + |Rule|];
    if j + |DashRule| <= |t| {
      assert s[j..j + |DashRule|] == t[j..j + |DashRule|];
    } else if j + |DashRule| <= |s| {
      assert d == Rule;
      assert s[j..j + |DashRule|][|p| - j] == s[|p|] == '=';
      assert DashRule[|p| - j] != '=';
    }
  }

  /** A text that no delimiter enters, then a delimiter: the split takes
      both as its first two pieces. */
  lemma SplitKeepingLead(p: string, d: string, rest: string)
    requires (d == Rule || d == DashRule) && NoDelimiterBefore(p, d)
    ensures SplitKeeping(p + d + rest) == [p, d] + SplitKeeping(rest)
  {
    var s := p + d + rest;
    forall j: nat | j < |p| ensures DelimiterAt(s, j) == 0 {
      DelimiterLocal(p, d, rest, j);
    }
    assert s[|p|..|p| + |d|] == d;
    if d == DashRule {
      assert s[|p|..|p| + |Rule|][0] == '-';
    }
    assert DelimiterAt(s, |p|) == |d|;
    assert FirstDelimiterFrom(s, 0) == Some(|p|);
    assert s[..|p|] == p;
    assert s[|p| + |d|..] == rest;
  }

  /** A text without delimiters is a single piece. */
  lemma SplitKeepingFree(s: string)
    requires DelimiterFree(s)
    ensures SplitKeeping(s) == [s]
  {
    assert FirstDelimiterFrom(s, 0).None?;
  }

  /** A body of the shape `p0 d1 p2 d3 section`, where `d1` and `d3` are the
      first two delimiter matches and the section holds none, has that
      section as its article section. */
  lemma ArticleSectionOf(p0: string, d1: string, p2: string, d3: string, section: string)
    requires (d1 == Rule || d1 == DashRule) && NoDelimiterBefore(p0, d1)
    requires (d3 == Rule || d3 == DashRule) && NoDelimiterBefore(p2, d3)
    requires DelimiterFree(section)
    ensures ArticleSection(p0 + d1 + p2 + d3 + section) == Some(section)
  {
    var tail := p2 + d3 + section;
    assert p0 + d1 + p2 + d3 + section == p0 + d1 + tail;
    SplitKeepingLead(p0, d1, tail);
    SplitKeepingLead(p2, d3, section);
    SplitKeepingFree(section);
    assert SplitKeeping(p0 + d1 + tail) == [p0, d1, p2, d3, section];
  }

  /** `re.split('(===|- - - )', body)[4]`: the article section, or None where
      Python raises IndexError because the split has fewer than five
      pieces. */
  function ArticleSection(body: string): (r: Option<string>)
    ensures r.None? <==> DelimiterCount(body) < 2
    ensures r.Some? ==> DelimiterFree(r.value)
    ensures r.Some? ==> |SplitKeeping(body)| > ArticleSectionIndex &&
                        r.value == SplitKeeping(body)[ArticleSectionIndex]
  {
    var parts := SplitKeeping(body);
    SplitKeepingShape(body);
    if |parts| > ArticleSectionIndex then Some(parts[ArticleSectionIndex]) else None
  }

  /** `section.split('\r\n\r\n')[1:-1]`: the blank-line separated chunks
      without the first and the last. */
  function Blocks(section: string): (r: seq<string>)
    ensures |r| == if Count(section, BlockSeparator) >= 1 then Count(section, BlockSeparator) - 1 else 0
    ensures forall k :: 0 <= k < |r| ==> Absent(r[k], BlockSeparator)
  {
    var chunks := Split(section, BlockSeparator);
    SplitCount(section, BlockSeparator);
    SplitPiecesFree(section, BlockSeparator);
    if |chunks| <= 2 then [] else chunks[1..|chunks| - 1]
  }

  /** One article block: the last `\r\n`-line, stripped, is the link; the
      earlier lines joined with no separator and stripped are the summary. */
  function ParseBlock(block: string): (a: Article)
  {
    var lines := Split(block, LineBreak);
    Article(Trim(Concat(lines[..|lines| - 1])), Trim(lines[|lines| - 1]))
  }

  /** The link of a block is its last line without surrounding whitespace,
      and a block of a single line has an empty summary. */
  lemma ParseBlockFacts(block: string)
    ensures var a := ParseBlock(block);
      && (|a.url| == 0 || (!IsSpace(a.url[0]) && !IsSpace(a.url[|a.url| - 1])))
      && Absent(a.url, LineBreak)
      && (|a.body| == 0 || (!IsSpace(a.body[0]) && !IsSpace(a.body[|a.body| - 1])))
      && (Absent(block, LineBreak) ==> a.body == "" && a.url == Trim(block))
  {
    var lines := Split(block, LineBreak);
    SplitPiecesFree(block, LineBreak);
    TrimFree(lines[|lines| - 1]);
    if Absent(block, LineBreak) {
      SingleLineBlock(block);
    }
  }

  /** Trimming a line keeps it free of line breaks. */
  lemma TrimFree(last: string)
    requires Absent(last, LineBreak)
    ensures Absent(Trim(last), LineBreak)
  {
    var lo := LeadingSpace(last);
    var u := Trim(last);
    forall j: nat ensures !OccursAt(u, LineBreak, j) {
      if j + 2 <= |u| {
        assert u[j..j + 2] == last[lo + j..lo + j + 2];
        assert !OccursAt(last, LineBreak, lo + j);
      }
    }
  }

  lemma SingleLineBlock(block: string)
    requires Absent(block, LineBreak)
    ensures ParseBlock(block) == Article("", Trim(block))
  {
    var lines := Split(block, LineBreak);
    assert lines == [block];
    assert lines[..0] == [];
    assert Trim("") == "";
  }

  /** A line without `\r\n` cannot run into a following `\r\n`: its last
      character would have to be `\r` followed by another `\r`. */
  lemma LineEndsCleanly(a: string)
    requires Absent(a, LineBreak)
    ensures EndsCleanly(a, LineBreak)
  {
    var s := a + LineBreak;
    forall j: nat | j < |a| ensures !OccursAt(s, LineBreak, j) {
      if j + 2 <= |a| {
        assert s[j..j + 2] == a[j..j + 2];
        assert !OccursAt(a, LineBreak, j);
      } else if j + 2 <= |s| {
        assert s[j + 1] == '\r';
        assert s[j..j + 2][1] == s[j + 1];
      }
    }
  }

  /** A block built from lines without `\r\n` parses into the stripped
      concatenation of all lines but the last, and the stripped last line. */
  lemma ParseBlockOfLines(lines: seq<string>)
    requires |lines| >= 1 && forall k :: 0 <= k < |lines| ==> Absent(lines[k], LineBreak)
    ensures ParseBlock(Join(LineBreak, lines))
         == Article(Trim(Concat(lines[..|lines| - 1])), Trim(lines[|lines| - 1]))
  {
    LinesEndCleanly(lines);
    SplitJoinClean(lines, LineBreak);
    ParseBlockSplit(Join(LineBreak, lines), lines);
  }

  lemma ParseBlockSplit(block: string, lines: seq<string>)
    requires Split(block, LineBreak) == lines
    ensures ParseBlock(block) == Article(Trim(Concat(lines[..|lines| - 1])), Trim(lines[|lines| - 1]))
  {
  }

  lemma LinesEndCleanly(lines: seq<string>)
    requires forall k :: 0 <= k < |lines| ==> Absent(lines[k], LineBreak)
    ensures forall k :: 0 <= k < |lines| ==> EndsCleanly(lines[k], LineBreak)
  {
    forall k | 0 <= k < |lines| ensures EndsCleanly(lines[k], LineBreak) {
      LineEndsCleanly(lines[k]);
    }
  }

  /** The block ends in `\r\n`. */
  predicate EndsWithLineBreak(a: string)
  {
    |a| >= 2 && a[|a| - 2..] == LineBreak
  }

  /** A chunk without a blank line that does not end in `\r\n` cannot run
      into a following `\r\n\r\n`. */
  lemma ChunkEndsCleanly(a: string)
    requires Absent(a, BlockSeparator) && !EndsWithLineBreak(a)
    ensures EndsCleanly(a, BlockSeparator)
  {
    var s := a + BlockSeparator;
    forall j: nat | j < |a| ensures !OccursAt(s, BlockSeparator, j) {
      if j + 4 <= |a| {
        assert s[j..j + 4] == a[j..j + 4];
        assert !OccursAt(a, BlockSeparator, j);
      } else if j + 4 <= |s| {
        var w := s[j..j + 4];
        if j == |a| - 1 {
          assert w[1] == s[|a|] == '\r';
        } else if j == |a| - 2 {
          assert w[0] == a[j] && w[1] == a[j + 1];
          assert a[|a| - 2..] == [a[j], a[j + 1]];
          assert LineBreak == [BlockSeparator[0], BlockSeparator[1]];
        } else {
          assert w[3] == s[|a|] == '\r';
        }
      }
    }
  }

  /** The articles of one digest body, or None where the source raises
      IndexError. */
  function ExtractArticles(body: string): (r: Option<seq<Article>>)
    ensures r.None? <==> DelimiterCount(body) < 2
  {
    match ArticleSection(body)
    case None => None
    case Some(section) =>
      var blocks := Blocks(section);
      Some(seq(|blocks|, k requires 0 <= k < |blocks| => ParseBlock(blocks[k])))
  }

  /** A text is free of delimiters exactly when neither delimiter occurs. */
  lemma DelimiterFreeAbsent(x: string)
    ensures DelimiterFree(x) <==> Absent(x, Rule) && Absent(x, DashRule)
  {
    if DelimiterFree(x) {
      forall j: nat ensures !OccursAt(x, Rule, j) && !OccursAt(x, DashRule, j) {
        assert DelimiterAt(x, j) == 0;
      }
    }
    if Absent(x, Rule) && Absent(x, DashRule) {
      forall j: nat ensures DelimiterAt(x, j) == 0 {
        assert !OccursAt(x, Rule, j) && !OccursAt(x, DashRule, j);
      }
    }
  }

  /** No character of the blank-line separator occurs in a delimiter. */
  lemma SeparatorApart()
    ensures forall c :: c in BlockSeparator ==> c !in Rule && c !in DashRule
  {
    assert forall c :: c in BlockSeparator ==> c == '\r' || c == '\n';
    assert forall c :: c in Rule ==> c == '=';
    assert forall c :: c in DashRule ==> c == '-' || c == ' ';
  }

  /** Chunks without delimiters joined at blank lines give a section without
      delimiters: neither delimiter holds `\r` or `\n`. */
  lemma SectionFree(chunks: seq<string>)
    requires forall k :: 0 <= k < |chunks| ==> DelimiterFree(chunks[k])
    ensures DelimiterFree(Join(BlockSeparator, chunks))
  {
    forall k | 0 <= k < |chunks| ensures Absent(chunks[k], Rule) && Absent(chunks[k], DashRule) {
      DelimiterFreeAbsent(chunks[k]);
    }
    SeparatorApart();
    JoinAbsent(BlockSeparator, chunks, Rule);
    JoinAbsent(BlockSeparator, chunks, DashRule);
    DelimiterFreeAbsent(Join(BlockSeparator, chunks));
  }

  /** Chunks that make up an article section: none holds a delimiter or a
      blank line, and none but the last ends in `\r\n`. */
  ghost predicate SectionChunks(chunks: seq<string>)
  {
    && (forall k :: 0 <= k < |chunks| ==> DelimiterFree(chunks[k]) && Absent(chunks[k], BlockSeparator))
    && (forall k :: 0 <= k < |chunks| - 1 ==> !EndsWithLineBreak(chunks[k]))
  }

  /** A section joined from chunks is cut back into those chunks, and its
      blocks are all but the first and the last. */
  lemma BlocksOf(head: string, blocks: seq<string>, foot: string)
    requires SectionChunks([head] + blocks + [foot])
    ensures Blocks(Join(BlockSeparator, [head] + blocks + [foot])) == blocks
  {
    var chunks := [head] + blocks + [foot];
    forall k | 0 <= k < |chunks| - 1 ensures EndsCleanly(chunks[k], BlockSeparator) {
      ChunkEndsCleanly(chunks[k]);
    }
    SplitJoinClean(chunks, BlockSeparator);
    assert chunks[1..|chunks| - 1] == blocks;
  }

  /** Extraction round trip: a body made of a text, a delimiter, a text, a
      delimiter and an article section joined from chunks yields one
      article per inner chunk, in order, each the parse of its chunk. */
  lemma ExtractArticlesOf(p0: string, d1: string, p2: string, d3: string,
                          head: string, blocks: seq<string>, foot: string)
    requires (d1 == Rule || d1 == DashRule) && NoDelimiterBefore(p0, d1)
    requires (d3 == Rule || d3 == DashRule) && NoDelimiterBefore(p2, d3)
    requires SectionChunks([head] + blocks + [foot])
    ensures ExtractArticles(p0 + d1 + p2 + d3 + Join(BlockSeparator, [head] + blocks + [foot]))
         == Some(seq(|blocks|, k requires 0 <= k < |blocks| => ParseBlock(blocks[k])))
  {
    var chunks := [head] + blocks + [foot];
    var section := Join(BlockSeparator, chunks);
    assert forall k :: 0 <= k < |chunks| ==> DelimiterFree(chunks[k]);
    SectionFree(chunks);
    ArticleSectionOf(p0, d1, p2, d3, section);
    BlocksOf(head, blocks, foot);
  }

  /** The articles are the blocks of the section, in their original order,
      one per blank line after the first. */
  lemma ExtractArticlesFacts(body: string)
    requires ExtractArticles(body).Some?
    ensures var section := ArticleSection(body).value;
      var arts := ExtractArticles(body).value;
      var k := Count(section, BlockSeparator);
      && |arts| == (if k >= 1 then k - 1 else 0)
      && forall i :: 0 <= i < |arts| ==>
           arts[i] == ParseBlock(Split(section, BlockSeparator)[i + 1])
  {
    var section := ArticleSection(body).value;
    var blocks := Blocks(section);
    var chunks := Split(section, BlockSeparator);
    assert ExtractArticles(body).value == seq(|blocks|, k requires 0 <= k < |blocks| => ParseBlock(blocks[k]));
    assert forall i :: 0 <= i < |blocks| ==> blocks[i] == chunks[i + 1];
  }
}
