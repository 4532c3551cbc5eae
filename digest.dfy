/** The weekly digest: the articles of all fetched alert emails with their
    links canonicalised, the first article kept for each link, the news text
    listing them, the digest text written to the raw output file, and the
    run that ties the window, the fetch, the extraction and the summary
    together. */
module Digest {
  import opened Wrappers
  import opened Text
  import opened ArticleExtraction
  import CanonicalUrl
  import Mail
  import Window

  /** An extracted article with its link canonicalised. */
  function Candidate(a: Article): Article
  {
    Article(a.body, CanonicalUrl.Canonicalize(a.url))
  }

  /** A candidate keeps the summary, and its link is already canonical, so
      it serves as the de-duplication key as it is; it carries no angle
      bracket and no tracking marker. */
  lemma CandidateCanonical(a: Article)
    ensures Candidate(a).body == a.body
    ensures CanonicalUrl.Canonicalize(Candidate(a).url) == Candidate(a).url
    ensures '<' !in Candidate(a).url && '>' !in Candidate(a).url
    ensures Absent(Candidate(a).url, CanonicalUrl.TrackingMarker)
  {
    CanonicalUrl.CanonicalizeIdempotent(a.url);
    CanonicalUrl.CanonicalizeFacts(a.url);
  }

  function CandidatesOf(arts: seq<Article>): (r: seq<Article>)
    ensures |r| == |arts| && forall k :: 0 <= k < |arts| ==> r[k] == Candidate(arts[k])
  {
    seq(|arts|, k requires 0 <= k < |arts| => Candidate(arts[k]))
  }

  /** The canonicalised articles of all emails in order, or None when one
      body lacks the article section (the source raises IndexError). */
  function Candidates(emails: seq<Mail.Email>): Option<seq<Article>>
  {
    if emails == [] then Some([])
    else
      var n := |emails| - 1;
      match Candidates(emails[..n])
      case None => None
      case Some(c) =>
        match ExtractArticles(emails[n].body)
        case None => None
        case Some(arts) => Some(c + CandidatesOf(arts))
  }

  /** One email without an article section fails the whole run. */
  lemma {:induction false} CandidatesFail(emails: seq<Mail.Email>, e: nat)
    requires e < |emails| && ExtractArticles(emails[e].body).None?
    ensures Candidates(emails).None?
    decreases |emails|
  {
    var n := |emails| - 1;
    if e < n {
      assert emails[..n][e] == emails[e];
      CandidatesFail(emails[..n], e);
      assert Candidates(emails[..n]).None?;
    } else {
      assert ExtractArticles(emails[n].body).None?;
    }
  }

  /** When every email has an article section the candidates exist, one
      canonicalised article per extracted article. */
  lemma {:induction false} CandidatesSucceed(emails: seq<Mail.Email>)
    requires forall i :: 0 <= i < |emails| ==> ExtractArticles(emails[i].body).Some?
    ensures Candidates(emails).Some?
  {
    if emails != [] {
      var n := |emails| - 1;
      assert forall i :: 0 <= i < n ==> emails[..n][i] == emails[i];
      CandidatesSucceed(emails[..n]);
    }
  }

  function UrlsOf(arts: seq<Article>): (r: seq<string>)
    ensures |r| == |arts| && forall k :: 0 <= k < |arts| ==> r[k] == arts[k].url
  {
    seq(|arts|, k requires 0 <= k < |arts| => arts[k].url)
  }

  /** The first article of `c` with link `u`, by index. */
  function FirstIndex(c: seq<Article>, u: string): (i: nat)
    requires u in UrlsOf(c)
    ensures i < |c| && c[i].url == u && forall k :: 0 <= k < i ==> c[k].url != u
    decreases |c|
  {
    var n := |c| - 1;
    if u in UrlsOf(c[..n]) then FirstIndex(c[..n], u) else n
  }

  /** The de-duplication of the source: walking the candidates in order,
      an article is kept when its link was not kept before. */
  function KeepFirst(c: seq<Article>): (r: seq<Article>)
    decreases |c|
  {
    if c == [] then []
    else
      var n := |c| - 1;
      var kept := KeepFirst(c[..n]);
      if c[n].url in UrlsOf(kept) then kept else kept + [c[n]]
  }

  ghost predicate DistinctUrls(r: seq<Article>)
  {
    forall i, j :: 0 <= i < j < |r| ==> r[i].url != r[j].url
  }

  /** What the de-duplication achieves, independently of how it walks:
      links are distinct, the same links as the candidates, each kept
      article is the first candidate with its link, and the kept articles
      are in the order their links first appear. */
  ghost predicate FirstOccurrences(c: seq<Article>, r: seq<Article>)
  {
    && DistinctUrls(r)
    && (forall k :: 0 <= k < |c| ==> c[k].url in UrlsOf(r))
    && (forall j :: 0 <= j < |r| ==> r[j].url in UrlsOf(c) && r[j] == c[FirstIndex(c, r[j].url)])
    && (forall i, j :: 0 <= i < j < |r| ==> FirstIndex(c, r[i].url) < FirstIndex(c, r[j].url))
  }

  lemma FirstIndexPrefix(c: seq<Article>, n: nat, u: string)
    requires n <= |c| && u in UrlsOf(c[..n])
    ensures u in UrlsOf(c) && FirstIndex(c, u) == FirstIndex(c[..n], u)
  {
    assert forall k :: 0 <= k < n ==> c[..n][k] == c[k];
    var i := FirstIndex(c[..n], u);
    assert UrlsOf(c)[i] == u;
  }

  /** The walk's last step, on a list with one more candidate. */
  lemma KeepFirstStep(c: seq<Article>, x: Article)
    ensures KeepFirst(c + [x]) == if x.url in UrlsOf(KeepFirst(c)) then KeepFirst(c) else KeepFirst(c) + [x]
  {
    assert (c + [x])[..|c|] == c;
  }

  lemma {:induction false} KeepFirstDistinct(c: seq<Article>)
    ensures DistinctUrls(KeepFirst(c))
    decreases |c|
  {
    if c != [] {
      var n := |c| - 1;
      var kept := KeepFirst(c[..n]);
      KeepFirstDistinct(c[..n]);
      if c[n].url !in UrlsOf(kept) {
        forall j | 0 <= j < |kept| ensures kept[j].url != c[n].url {
          assert UrlsOf(kept)[j] == kept[j].url;
        }
      }
    }
  }

  /** Every candidate link is kept. */
  lemma {:induction false} KeepFirstCovers(c: seq<Article>)
    ensures forall k :: 0 <= k < |c| ==> c[k].url in UrlsOf(KeepFirst(c))
    decreases |c|
  {
    if c != [] {
      var n := |c| - 1;
      var p := c[..n];
      var kept := KeepFirst(p);
      var r := KeepFirst(c);
      KeepFirstCovers(p);
      forall k | 0 <= k < |c| ensures c[k].url in UrlsOf(r) {
        if k < n {
          assert c[k] == p[k];
          var j :| 0 <= j < |kept| && UrlsOf(kept)[j] == p[k].url;
          assert UrlsOf(r)[j] == kept[j].url;
        } else if c[n].url !in UrlsOf(kept) {
          assert UrlsOf(r)[|kept|] == c[n].url;
        }
      }
    }
  }

  /** A link not kept from a prefix does not occur in it. */
  lemma NewUrl(c: seq<Article>, n: nat)
    requires n < |c| && c[n].url !in UrlsOf(KeepFirst(c[..n]))
    ensures c[n].url !in UrlsOf(c[..n]) && FirstIndex(c, c[n].url) == n
  {
    var p := c[..n];
    KeepFirstCovers(p);
    forall k | 0 <= k < n ensures p[k].url != c[n].url {
    }
    forall k | 0 <= k < n ensures c[k].url != c[n].url {
      assert c[k] == p[k];
    }
    assert UrlsOf(c)[n] == c[n].url;
  }

  /** Each kept article is the first candidate with its link. */
  lemma {:induction false} KeepFirstFirsts(c: seq<Article>)
    ensures forall j :: 0 <= j < |KeepFirst(c)| ==>
      KeepFirst(c)[j].url in UrlsOf(c) && KeepFirst(c)[j] == c[FirstIndex(c, KeepFirst(c)[j].url)]
    decreases |c|
  {
    if c != [] {
      var n := |c| - 1;
      var p := c[..n];
      var kept := KeepFirst(p);
      KeepFirstFirsts(p);
      forall j | 0 <= j < |kept|
        ensures kept[j].url in UrlsOf(c) && kept[j] == c[FirstIndex(c, kept[j].url)]
      {
        assert kept[j].url in UrlsOf(p);
        FirstIndexPrefix(c, n, kept[j].url);
        assert c[FirstIndex(p, kept[j].url)] == p[FirstIndex(p, kept[j].url)];
      }
      if c[n].url !in UrlsOf(kept) {
        NewUrl(c, n);
        assert KeepFirst(c) == kept + [c[n]];
      }
    }
  }

  /** The kept articles follow the order in which their links first occur. */
  lemma {:induction false} KeepFirstOrdered(c: seq<Article>)
    ensures forall i, j :: 0 <= i < j < |KeepFirst(c)| ==>
      && KeepFirst(c)[i].url in UrlsOf(c) && KeepFirst(c)[j].url in UrlsOf(c)
      && FirstIndex(c, KeepFirst(c)[i].url) < FirstIndex(c, KeepFirst(c)[j].url)
    decreases |c|
  {
    if c != [] {
      var n := |c| - 1;
      var p := c[..n];
      var kept := KeepFirst(p);
      var r := KeepFirst(c);
      KeepFirstOrdered(p);
      KeepFirstFirsts(p);
      forall j | 0 <= j < |kept|
        ensures kept[j].url in UrlsOf(c) && FirstIndex(c, kept[j].url) == FirstIndex(p, kept[j].url) < n
      {
        assert kept[j].url in UrlsOf(p);
        FirstIndexPrefix(c, n, kept[j].url);
      }
      assert c == p + [c[n]];
      KeepFirstStep(p, c[n]);
      if c[n].url in UrlsOf(kept) {
        assert r == kept;
      } else {
        NewUrl(c, n);
        assert r == kept + [c[n]];
        assert UrlsOf(c)[n] == c[n].url;
        forall i, j | 0 <= i < j < |r|
          ensures r[i].url in UrlsOf(c) && r[j].url in UrlsOf(c) && FirstIndex(c, r[i].url) < FirstIndex(c, r[j].url)
        {
          assert r[i] == kept[i];
          if j < |kept| {
            assert r[j] == kept[j];
          } else {
            assert r[j] == c[n];
          }
        }
      }
    } else {
      assert |KeepFirst(c)| == 0;
    }
  }

  lemma KeepFirstIsFirstOccurrences(c: seq<Article>)
    ensures FirstOccurrences(c, KeepFirst(c))
  {
    KeepFirstDistinct(c);
    KeepFirstCovers(c);
    KeepFirstFirsts(c);
    KeepFirstOrdered(c);
  }

  /** Three articles where the third repeats the first one's link: the
      first two are kept, in order. */
  lemma KeepFirstExample(a: Article, b: Article, c: Article)
    requires a.url == c.url && a.url != b.url
    ensures KeepFirst([a, b, c]) == [a, b]
  {
    assert [a][..0] == [];
    assert KeepFirst([a]) == [a];
    assert [a, b][..1] == [a];
    assert UrlsOf([a]) == [a.url];
    assert KeepFirst([a, b]) == [a, b];
    assert [a, b, c][..2] == [a, b];
    assert UrlsOf([a, b])[0] == c.url;
  }

  /** Keeping the first article per link never keeps a link twice, and
      keeps one article for every link. */
  lemma KeepFirstFacts(c: seq<Article>)
    ensures DistinctUrls(KeepFirst(c))
    ensures forall u :: u in UrlsOf(c) <==> u in UrlsOf(KeepFirst(c))
    ensures |KeepFirst(c)| <= |c|
  {
    KeepFirstIsFirstOccurrences(c);
    var r := KeepFirst(c);
    forall u | u in UrlsOf(r) ensures u in UrlsOf(c) {
      var j :| 0 <= j < |r| && UrlsOf(r)[j] == u;
    }
    forall u | u in UrlsOf(c) ensures u in UrlsOf(r) {
      var k :| 0 <= k < |c| && UrlsOf(c)[k] == u;
    }
    KeepFirstShorter(c);
  }

  /** A further candidate is appended exactly when no earlier candidate
      has its link; otherwise the kept list stays as it is. */
  lemma KeepFirstAppend(c: seq<Article>, x: Article)
    ensures KeepFirst(c + [x]) == if x.url in UrlsOf(c) then KeepFirst(c) else KeepFirst(c) + [x]
  {
    KeepFirstStep(c, x);
    KeepFirstFacts(c);
  }

  lemma {:induction false} KeepFirstShorter(c: seq<Article>)
    ensures |KeepFirst(c)| <= |c|
    decreases |c|
  {
    if c != [] {
      KeepFirstShorter(c[..|c| - 1]);
    }
  }

  /** One step of the per-article loop, on the kept list and its links. */
  lemma KeepFirstAdd(walked: seq<Article>, kept: seq<Article>, urls: seq<string>, a: Article)
    requires kept == KeepFirst(walked) && urls == UrlsOf(kept)
    ensures a.url in urls ==> KeepFirst(walked + [a]) == kept
    ensures a.url !in urls ==> KeepFirst(walked + [a]) == kept + [a] && UrlsOf(kept + [a]) == urls + [a.url]
  {
    KeepFirstStep(walked, a);
    if a.url !in urls {
      assert UrlsOf(kept + [a]) == urls + [a.url];
    }
  }

  lemma CandidatesOfSnoc(seen: seq<Article>, arts: seq<Article>, k: nat)
    requires k < |arts|
    ensures seen + CandidatesOf(arts[..k + 1]) == (seen + CandidatesOf(arts[..k])) + [Candidate(arts[k])]
  {
    var x, y, c := CandidatesOf(arts[..k]), CandidatesOf(arts[..k + 1]), Candidate(arts[k]);
    forall i | 0 <= i < |y| ensures y[i] == (x + [c])[i] {
      if i < k {
        assert arts[..k + 1][i] == arts[..k][i];
      }
    }
    assert y == x + [c];
  }

  /** The per-article loop of the source for one email: canonicalise each
      link and append the article and its link when the link was not seen
      before. */
  method AddArticles(articles: seq<Article>, urls: seq<string>, ghost seen: seq<Article>, arts: seq<Article>)
    returns (articles': seq<Article>, urls': seq<string>)
    requires articles == KeepFirst(seen) && urls == UrlsOf(articles)
    ensures articles' == KeepFirst(seen + CandidatesOf(arts)) && urls' == UrlsOf(articles')
  {
    articles', urls' := articles, urls;
    ghost var walked := seen;
    assert seen + CandidatesOf(arts[..0]) == seen;
    for k := 0 to |arts|
      invariant walked == seen + CandidatesOf(arts[..k])
      invariant articles' == KeepFirst(walked)
      invariant urls' == UrlsOf(articles')
    {
      var a := Candidate(arts[k]);
      CandidatesOfSnoc(seen, arts, k);
      KeepFirstAdd(walked, articles', urls', a);
      walked := walked + [a];
      if a.url !in urls' {
        articles' := articles' + [a];
        urls' := urls' + [a.url];
      }
    }
    assert arts[..|arts|] == arts;
  }

  /** The per-email loop of the source: extract the articles of each email
      and add them, de-duplicated by link. None where the source raises
      IndexError. */
  method CollectArticles(emails: seq<Mail.Email>) returns (r: Option<seq<Article>>, urls: seq<string>)
    ensures r.None? <==> Candidates(emails).None?
    ensures r.Some? ==> r.value == KeepFirst(Candidates(emails).value) && urls == UrlsOf(r.value)
  {
    var articles: seq<Article> := [];
    urls := [];
    for e := 0 to |emails|
      invariant Candidates(emails[..e]).Some?
      invariant articles == KeepFirst(Candidates(emails[..e]).value)
      invariant urls == UrlsOf(articles)
    {
      assert emails[..e + 1][..e] == emails[..e];
      assert emails[..e + 1][e] == emails[e];
      var arts := ExtractArticles(emails[e].body);
      if arts.None? {
        CandidatesFail(emails, e);
        return None, urls;
      }
      articles, urls := AddArticles(articles, urls, Candidates(emails[..e]).value, arts.value);
    }
    assert emails[..|emails|] == emails;
    r := Some(articles);
  }

  /** One article of the news text: summary line, link line, blank line. */
  function Entry(a: Article): string
  {
    a.body + "\n" + a.url + "\n\n"
  }

  /** The news text: the entries of the articles in order. */
  function NewsText(arts: seq<Article>): string
  {
    if arts == [] then "" else Entry(arts[0]) + NewsText(arts[1..])
  }

  lemma {:induction false} NewsTextAppend(arts: seq<Article>, a: Article)
    ensures NewsText(arts + [a]) == NewsText(arts) + Entry(a)
  {
    if arts == [] {
      assert [a][1..] == [];
    } else {
      assert (arts + [a])[1..] == arts[1..] + [a];
      NewsTextAppend(arts[1..], a);
    }
  }

  /** The rendering loop of the source. */
  method RenderNews(arts: seq<Article>) returns (text: string)
    ensures text == NewsText(arts)
  {
    text := "";
    for i := 0 to |arts|
      invariant text == NewsText(arts[..i])
    {
      NewsTextAppend(arts[..i], arts[i]);
      assert arts[..i + 1] == arts[..i] + [arts[i]];
      text := text + Entry(arts[i]);
    }
    assert arts[..|arts|] == arts;
  }

  /** The lines a reader sees for each article: summary, link, blank. */
  function ArticleLines(arts: seq<Article>): (r: seq<string>)
    ensures |r| == 3 * |arts|
  {
    if arts == [] then [] else [arts[0].body, arts[0].url, ""] + ArticleLines(arts[1..])
  }

  ghost predicate SingleLines(arts: seq<Article>)
  {
    forall k :: 0 <= k < |arts| ==> '\n' !in arts[k].body && '\n' !in arts[k].url
  }

  lemma SplitTwo(u: string, rest: string, sep: string)
    requires |sep| > 0 && sep[0] !in u
    ensures Split(u + sep + ("" + sep + rest), sep) == [u, ""] + Split(rest, sep)
  {
    SplitAfter("", sep, rest);
    SplitAfter(u, sep, "" + sep + rest);
  }

  /** The entry's text, re-associated the way its split is proved. */
  lemma EntryAssociation(b: string, u: string, rest: string, sep: string)
    ensures b + sep + u + sep + sep + rest == b + sep + (u + sep + ("" + sep + rest))
  {
  }

  /** One entry splits into its summary, its link and a blank line. */
  lemma SplitEntry(b: string, u: string, rest: string, sep: string)
    requires |sep| > 0 && sep[0] !in b && sep[0] !in u
    ensures Split(b + sep + u + sep + sep + rest, sep) == [b, u, ""] + Split(rest, sep)
  {
    SplitTwo(u, rest, sep);
    EntryAssociation(b, u, rest, sep);
    var r2 := u + sep + ("" + sep + rest);
    SplitAfter(b, sep, r2);
    assert Split(b + sep + r2, sep) == [b] + ([u, ""] + Split(rest, sep));
  }

  lemma EntryText(a: Article, rest: string)
    ensures Entry(a) + rest == a.body + "\n" + a.url + "\n" + "\n" + rest
  {
  }

  lemma SingleLinesTail(arts: seq<Article>)
    requires arts != [] && SingleLines(arts)
    ensures SingleLines(arts[1..]) && '\n' !in arts[0].body && '\n' !in arts[0].url
  {
    forall k | 0 <= k < |arts| - 1 ensures '\n' !in arts[1..][k].body && '\n' !in arts[1..][k].url {
      assert arts[1..][k] == arts[k + 1];
    }
  }

  /** The first entry of the news text splits off as three lines. */
  lemma FirstEntryLines(arts: seq<Article>, tail: string)
    requires arts != [] && '\n' !in arts[0].body && '\n' !in arts[0].url
    ensures Split(NewsText(arts) + tail, "\n")
         == [arts[0].body, arts[0].url, ""] + Split(NewsText(arts[1..]) + tail, "\n")
  {
    var rest := NewsText(arts[1..]) + tail;
    assert NewsText(arts) + tail == Entry(arts[0]) + rest;
    EntryText(arts[0], rest);
    SplitEntry(arts[0].body, arts[0].url, rest, "\n");
  }

  /** When no summary or link holds a newline, the news text followed by
      any text splits into three lines per article and then that text's
      lines: the news text can be read back article by article. */
  lemma {:induction false} NewsTextLines(arts: seq<Article>, tail: string)
    requires SingleLines(arts)
    ensures Split(NewsText(arts) + tail, "\n") == ArticleLines(arts) + Split(tail, "\n")
  {
    if arts != [] {
      SingleLinesTail(arts);
      NewsTextLines(arts[1..], tail);
      FirstEntryLines(arts, tail);
      Regroup(Split(NewsText(arts) + tail, "\n"), [arts[0].body, arts[0].url, ""],
        Split(NewsText(arts[1..]) + tail, "\n"), ArticleLines(arts[1..]), Split(tail, "\n"));
      assert ArticleLines(arts) == [arts[0].body, arts[0].url, ""] + ArticleLines(arts[1..]);
    } else {
      assert NewsText(arts) + tail == tail;
    }
  }

  const PeriodHeading := "###### ニュースの期間"
  const ArticlesHeading := "###### ニュース記事"
  const RangeMark := "～"

  /** The text written to the raw output file. */
  function DigestText(w: Window.DigestWindow, news: string): string
  {
    PeriodHeading + "\n\n" + Window.Slashed(w.after) + RangeMark + Window.Slashed(w.before)
      + "\n\n" + ArticlesHeading + "\n" + news + "\n"
  }

  function PeriodLine(w: Window.DigestWindow): string
  {
    Window.Slashed(w.after) + RangeMark + Window.Slashed(w.before)
  }

  lemma PeriodLineSingle(w: Window.DigestWindow)
    ensures '\n' !in PeriodLine(w)
  {
    var a, b := Window.Slashed(w.after), Window.Slashed(w.before);
    Window.SlashedRoundTrip(w.after);
    Window.SlashedRoundTrip(w.before);
    assert a == Window.Padded(w.after.year, 4) + "/" + Window.Padded(w.after.month, 2) + "/" + Window.Padded(w.after.day, 2);
    assert b == Window.Padded(w.before.year, 4) + "/" + Window.Padded(w.before.month, 2) + "/" + Window.Padded(w.before.day, 2);
    assert '\n' !in a;
    assert '\n' !in b;
  }

  /** The frame's text, re-associated the way its split is proved. */
  lemma FrameAssociation(h: string, p: string, g: string, tail: string, sep: string)
    ensures h + sep + sep + p + sep + sep + g + sep + tail
         == h + sep + ("" + sep + (p + sep + ("" + sep + (g + sep + tail))))
  {
  }

  lemma SplitFrameTail(p: string, g: string, tail: string, sep: string)
    requires |sep| > 0 && sep[0] !in p && sep[0] !in g
    ensures Split(p + sep + ("" + sep + (g + sep + tail)), sep) == [p, "", g] + Split(tail, sep)
  {
    SplitAfter(g, sep, tail);
    SplitTwo(p, g + sep + tail, sep);
  }

  lemma SplitFrameNested(h: string, p: string, g: string, tail: string, sep: string)
    requires |sep| > 0 && sep[0] !in h && sep[0] !in p && sep[0] !in g
    ensures Split(h + sep + ("" + sep + (p + sep + ("" + sep + (g + sep + tail)))), sep)
         == [h, "", p, "", g] + Split(tail, sep)
  {
    var y := p + sep + ("" + sep + (g + sep + tail));
    SplitFrameTail(p, g, tail, sep);
    SplitTwo(h, y, sep);
    Regroup(Split(h + sep + ("" + sep + y), sep), [h, ""], Split(y, sep), [p, "", g], Split(tail, sep));
    assert [h, ""] + [p, "", g] == [h, "", p, "", g];
  }

  /** The frame of the digest text splits into its five leading lines. */
  lemma SplitFrame(h: string, p: string, g: string, tail: string, sep: string)
    requires |sep| > 0 && sep[0] !in h && sep[0] !in p && sep[0] !in g
    ensures Split(h + sep + sep + p + sep + sep + g + sep + tail, sep) == [h, "", p, "", g] + Split(tail, sep)
  {
    SplitFrameNested(h, p, g, tail, sep);
    FrameAssociation(h, p, g, tail, sep);
  }

  lemma DigestTextFrame(w: Window.DigestWindow, news: string)
    ensures DigestText(w, news)
      == PeriodHeading + "\n" + "\n" + PeriodLine(w) + "\n" + "\n" + ArticlesHeading + "\n" + (news + "\n")
  {
  }

  lemma HeadingsSingle()
    ensures '\n' !in PeriodHeading && '\n' !in ArticlesHeading
  {
    assert forall k :: 0 <= k < |PeriodHeading| ==> PeriodHeading[k] != '\n';
    assert forall k :: 0 <= k < |ArticlesHeading| ==> ArticlesHeading[k] != '\n';
  }

  lemma SplitNewline()
    ensures Split("\n", "\n") == ["", ""]
  {
    SplitAfter("", "\n", "");
    SplitWhole("", "\n");
    assert "" + "\n" + "" == "\n";
  }

  lemma NewsBlockLines(arts: seq<Article>)
    requires SingleLines(arts)
    ensures Split(NewsText(arts) + "\n", "\n") == ArticleLines(arts) + ["", ""]
  {
    NewsTextLines(arts, "\n");
    SplitNewline();
  }

  /** The digest text, line by line: the period heading, a blank line, the
      window `YYYY/MM/DD～YYYY/MM/DD`, a blank line, the articles heading,
      three lines per article and two final empty lines. */
  lemma DigestLines(w: Window.DigestWindow, arts: seq<Article>)
    requires SingleLines(arts)
    ensures Split(DigestText(w, NewsText(arts)), "\n")
      == [PeriodHeading, "", PeriodLine(w), "", ArticlesHeading] + ArticleLines(arts) + ["", ""]
  {
    var news := NewsText(arts);
    PeriodLineSingle(w);
    HeadingsSingle();
    NewsBlockLines(arts);
    SplitFrame(PeriodHeading, PeriodLine(w), ArticlesHeading, news + "\n", "\n");
    DigestTextFrame(w, news);
    Regroup(Split(DigestText(w, news), "\n"), [PeriodHeading, "", PeriodLine(w), "", ArticlesHeading],
      Split(news + "\n", "\n"), ArticleLines(arts), ["", ""]);
  }

  /** Python's `max_results` for the Gmail listing. */
  const MaxResults := 30

  /** The emails a query yields, newest first, or None where reading one
      raises. `list` is the Gmail listing and fetching of the messages. */
  function FetchedEmails(query: string, list: (string, nat) -> seq<Mail.Message>,
                         decode: string -> Option<string>, parse: (string, string) -> Option<int>,
                         clock: nat -> int): Option<seq<Mail.Email>>
  {
    match Mail.EmailsOf(list(query, MaxResults), decode, parse, clock)
    case None => None
    case Some(es) => Some(Mail.SortNewestFirst(es))
  }

  /** What one run writes: the search query it used, the raw file's name
      and text, and the summarised file's name and text. */
  datatype Outputs = Outputs(query: string, rawName: string, rawText: string,
                             formattedName: string, formattedText: string)

  /** One run of the weekly digest from `start`. The Gmail listing, the
      body decoding, the date parsing, the clock and the language-model
      call are parameters; `summarize` receives the window and the raw
      text that the prompt is built from. None where the source raises:
      the window passes 9999-12-31, a body cannot be decoded, or an email
      has no article section. */
  method RunDigest(start: Window.CivilDate, subjectFilter: string,
                   list: (string, nat) -> seq<Mail.Message>, decode: string -> Option<string>,
                   parse: (string, string) -> Option<int>, clock: nat -> int,
                   summarize: (Window.DigestWindow, string) -> string)
    returns (r: Option<Outputs>)
    ensures var w := Window.MakeWindow(start);
      r.None? <==>
        || w.None?
        || (var emails := FetchedEmails(Window.Query(subjectFilter, w.value), list, decode, parse, clock);
            emails.None? || Candidates(emails.value).None?)
    ensures r.Some? ==>
      && Window.MakeWindow(start).Some?
      && var w := Window.MakeWindow(start).value;
         && r.value.query == Window.Query(subjectFilter, w)
         && FetchedEmails(r.value.query, list, decode, parse, clock).Some?
         && var emails := FetchedEmails(r.value.query, list, decode, parse, clock).value;
            && Candidates(emails).Some?
            && r.value.rawName == Window.RawFileName(w)
            && r.value.formattedName == Window.FormattedFileName(w)
            && r.value.rawText == DigestText(w, NewsText(KeepFirst(Candidates(emails).value)))
            && r.value.formattedText == summarize(w, r.value.rawText)
  {
    var w := Window.MakeWindow(start);
    if w.None? {
      return None;
    }
    var query := Window.Query(subjectFilter, w.value);
    var messages := list(query, MaxResults);
    var emails := Mail.GetEmails(messages, decode, parse, clock);
    if emails.None? {
      return None;
    }
    assert FetchedEmails(query, list, decode, parse, clock) == emails;
    var articles, urls := CollectArticles(emails.value);
    if articles.None? {
      return None;
    }
    assert articles.value == KeepFirst(Candidates(emails.value).value);
    var news := RenderNews(articles.value);
    var rawName := Window.RawFileName(w.value);
    var rawText := DigestText(w.value, news);
    var formattedText := summarize(w.value, rawText);
    var formattedName := Window.FormattedFileName(w.value);
    r := Some(Outputs(query, rawName, rawText, formattedName, formattedText));
  }

  /** A completed run keeps one article per link, in the order the links
      first appear among the newest-first emails, and its two file names
      carry the window as `YYYYMMDD`. */
  lemma RunFacts(w: Window.DigestWindow, emails: seq<Mail.Email>)
    requires Candidates(emails).Some?
    ensures var c := Candidates(emails).value;
      && FirstOccurrences(c, KeepFirst(c))
      && Window.RawFileName(w) == "output_" + Window.Compact(w.after) + "-" + Window.Compact(w.before) + ".txt"
      && Window.FormattedFileName(w) == "output_" + Window.Compact(w.after) + "-" + Window.Compact(w.before) + "_formatted.txt"
  {
    KeepFirstIsFirstOccurrences(Candidates(emails).value);
    Window.FileNames(w);
    Window.CompactDigits(w.after);
    Window.CompactDigits(w.before);
  }
}
