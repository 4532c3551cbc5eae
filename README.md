# aws_news weekly digest — a Dafny model

`main.py` builds a weekly digest of AWS news from Google Alerts e-mails:

- it computes a seven-day window from a start date and searches Gmail for
  the alert e-mails in it;
- it turns every message into an e-mail record (subject, sender, date,
  plain-text body) and sorts the records newest first;
- it cuts each alert body into article blocks (summary lines plus a link)
  and canonicalises each link with three regular-expression substitutions;
- it keeps the first article per canonical link across all e-mails and
  writes the articles, under a header showing the window, to
  `output_YYYYMMDD-YYYYMMDD.txt`;
- it has a language model summarise that text into
  `output_YYYYMMDD-YYYYMMDD_formatted.txt`.

This project models that text pipeline in Dafny and proves what it
guarantees. Modules:

- `Wrappers` — `Option`.
- `Text` — the Python `str` operations the pipeline relies on: `find`,
  `rfind`, `split`, `join`, `replace`, `''.join`, `strip` (with Python's
  whitespace set).
- `CanonicalUrl` — `re.sub(r'[<>]', '', url)`, `re.sub('http.*http', 'http', url)`
  and `re.sub('&ct=ga&.*', '', url)`. A regex `.` does not match a newline,
  so the last two work on each line, and the model is stated for every
  string.
- `ArticleExtraction` — `re.split('(===|- - - )', body)[4]`, the
  `'\r\n\r\n'` blocks without the first and last, and the summary/link
  split of each block.
- `Mail` — header lookup, the parenthesis strip of the `Date` header, the
  format-trying loop, the choice of the text body, the stable newest-first
  sort and the per-message loop.
- `Window` — proleptic Gregorian dates, `date + timedelta(days=6)`,
  `%Y/%m/%d`, the Gmail query and the two file names.
- `Digest` — canonicalisation of every extracted article, the
  de-duplication loops, the rendering loop, the digest text and the run
  that ties them together.

Where Python raises, the model returns `None`:

- `IndexError` when a body has fewer than two delimiters;
- `KeyError` when a `text/plain` part has no data;
- a body that cannot be decoded;
- `OverflowError` when the window passes 9999-12-31.

The integer timestamps are abstract. The parser, the clock, the body
decoder, the Gmail fetch and the language model are function parameters.

## Model

| member | source | states |
|---|---|---|
| Text.JoinSplit | main.py:161 | Joining the pieces of `s.split(sep)` with `sep` gives `s` back. |
| Text.SplitCount | main.py:161 | `s.split(sep)` has one piece more than there are non-overlapping occurrences of `sep`. |
| Text.SplitPiecesFree | main.py:161 | No piece of a split contains the separator. |
| Text.Trim | main.py:163-164 | `strip()` leaves no whitespace at either end, is a contiguous slice of the input, and removes only whitespace. |
| Text.TrimTwice | main.py:163-164 | Stripping twice is the same as stripping once. |
| CanonicalUrl.StripAngles | main.py:165 | The result has no `<` or `>` and only characters of the input. |
| CanonicalUrl.StripAnglesAppend | main.py:165 | Deleting brackets from `a + b` gives the deletion from `a` followed by the deletion from `b`, so the kept characters stay in order. |
| CanonicalUrl.StripAnglesKeeps | main.py:165 | A string without brackets is unchanged. |
| CanonicalUrl.StripAnglesCounts | main.py:165 | Every character other than `<` and `>` occurs in the result exactly as often as in the input. |
| CanonicalUrl.CollapseLine | main.py:166 | On one line: at most one `http` remains; a line with at most one `http` is unchanged; otherwise the result is the text before the first `http` followed by the text from the last `http`. |
| CanonicalUrl.TruncateLine | main.py:167 | On one line: the result is the text before the FIRST `&ct=ga&`. It is a prefix of the input without the marker; no marker starts inside it; it is the whole line when the marker is absent, and otherwise the marker starts right after it. |
| CanonicalUrl.CanonicalizeByLine | main.py:165-167 | The three substitutions on a multi-line string act on each `\n`-separated line independently. |
| CanonicalUrl.CanonicalLineFacts | main.py:165-167 | A canonical line has no brackets, at most one `http` and no tracking marker, and canonicalising it again changes nothing. |
| CanonicalUrl.CanonicalizeIdempotent | main.py:165-167 | Canonicalising a canonical URL changes nothing, for every string. |
| CanonicalUrl.CanonicalizeFacts | main.py:165-167 | Every canonical URL lacks brackets and the tracking marker, and each of its lines holds `http` at most once. |
| CanonicalUrl.AnglesRemoved | main.py:165-167 | A clean link and the same link between `<` and `>` both canonicalise to the link. |
| CanonicalUrl.RedirectUnwrapped | main.py:165-167 | A redirect link starting with `http` followed by a clean target starting with `http` canonicalises to the target. |
| CanonicalUrl.TrackingCut | main.py:165-167 | A clean link followed by `&ct=ga&` and a tail canonicalises to the link, provided the link does not end in `&ct=ga` (which would complete an earlier marker) and the tail has no `http`, bracket or newline. |
| ArticleExtraction.FirstDelimiterFrom | main.py:161 | The leftmost position at or after `from` where `===` or `- - - ` matches, or none. |
| ArticleExtraction.SplitKeepingConcat | main.py:161 | The pieces of the delimiter-keeping split glue back to the body. |
| ArticleExtraction.SplitKeepingShape | main.py:161 | The split has `2k+1` pieces for `k` delimiters; odd pieces are delimiters and even pieces contain none. |
| ArticleExtraction.ArticleSection | main.py:161 | Element 4 exists exactly when the body has at least two delimiters; it is then delimiter-free and equals element 4 of the split. |
| ArticleExtraction.Blocks | main.py:161 | With `k` blank-line separators there are `max(0, k-1)` blocks, none containing a separator. |
| ArticleExtraction.ParseBlockFacts | main.py:163-164 | For every block: the link has no whitespace at either end and no `\r\n` inside; the summary has no whitespace at either end; a block without `\r\n` has an empty summary and the stripped block as its link. |
| ArticleExtraction.ParseBlockOfLines | main.py:163-164 | A block made of lines joined by `\r\n`, none containing `\r\n`, gives the stripped concatenation of all lines but the last as the summary and the stripped last line as the link. |
| ArticleExtraction.ExtractArticles | main.py:161-164 | Extraction fails exactly when the body has fewer than two delimiters. |
| ArticleExtraction.ExtractArticlesFacts | main.py:161-164 | With `k` separators in the article section there are `max(0, k-1)` articles, and article `i` is the parse of piece `i+1` of the section's split. |
| ArticleExtraction.ExtractArticlesOf | main.py:161-164 | Building a body from a prefix, a delimiter, a middle, a delimiter and chunks joined by `\r\n\r\n` (no delimiter before the two chosen ones, no delimiter or separator in a chunk, no chunk but the last ending in `\r\n`) and extracting it gives back exactly the parse of each inner chunk, in order. |
| Mail.HeaderValue | main.py:85-89 | The value of the first header with the exact name, or the default when none has it. |
| Mail.StripParens | main.py:102 | The result has only characters of the input, and no `(` is followed later by `)`. |
| Mail.StripParensKeeps | main.py:102 | A string without `(` is unchanged. |
| Mail.StripParensPlain | main.py:102 | A prefix without `(` is kept as it is, in front of the result for the rest. |
| Mail.StripParensGroup | main.py:102 | A `(`, text without `)`, and the closing `)` are deleted together, and the rest is processed as if they were not there. |
| Mail.StripParensUnclosed | main.py:102 | A string without `)` is unchanged, unclosed `(` included. |
| Mail.CleanDate | main.py:102 | The cleaned date has no parenthesised group left. |
| Mail.CleanDateDropsZone | main.py:102 | A date followed by ` (zone)`, as in `… +0000 (UTC)`, cleans to exactly the date, when the date has no `(` and no whitespace at either end. |
| Mail.FirstParseIsFirstSuccess | main.py:99-109 | The date comes from the first format that parses; the clock is used exactly when none parses. |
| Mail.ParseDate | main.py:92-109 | The format loop with `break` returns the first successful parse, or the clock. |
| Mail.FirstPlainPart | main.py:117-121 | The index of the first `text/plain` part, or none when no part has that type. |
| Mail.BodyTextFacts | main.py:116-123 | With `parts` the body is the first `text/plain` part's decoded data, or `""` when there is none; without them it is the top-level data or `""`; a `text/plain` part without data fails. |
| Mail.SelectBody | main.py:116-123 | The loop over the parts returns exactly the body text characterised above. |
| Mail.SortIsNewestFirst | main.py:138 | The sorted records never increase in timestamp. |
| Mail.SortPermutes | main.py:138 | The sorted records are a permutation of the input. |
| Mail.SortIsStable | main.py:138 | Records with equal timestamps keep their relative order. |
| Mail.EmailsOfNone | main.py:73-135 | The record list fails exactly when some message's record fails. |
| Mail.EmailsOfSome | main.py:73-135 | A successful record list has one record per message, and record `i` is the record built from message `i` with clock reading `i`. |
| Mail.EmailsOfFails | main.py:73-135 | A failure on any one message fails the whole list. |
| Mail.GetEmails | main.py:67-140 | The per-message loop fails exactly when the record of some message fails; otherwise it returns the records of all messages in fetch order, sorted newest first. |
| Window.OrdinalOrder | main.py:150 | The ordinal follows calendar order (year, month, day), in both directions. |
| Window.OrdinalInjective | main.py:150 | Two dates are equal exactly when their ordinals are, so the ordinal in the contracts below fixes the date. |
| Window.NextDay | main.py:150 | The next day has the next ordinal; there is none after 9999-12-31. |
| Window.OrdinalBounded | main.py:150 | No date lies after 9999-12-31. |
| Window.AddDays | main.py:150 | `d + timedelta(days=n)` has ordinal `ordinal(d) + n`; it fails exactly when that passes 9999-12-31. |
| Window.MakeWindow | main.py:149-150 | The window ends exactly six days after the start, or fails where Python overflows. |
| Window.YearRollover | main.py:150 | Adding six days to 2024-12-28 rolls over into 2025-01-03. |
| Window.LeapFebruary | main.py:150 | Adding six days to 2024-02-25 passes 2024-02-29 and gives 2024-03-02. |
| Window.LastWeekOverflows | main.py:150 | Adding six days to 9999-12-26 overflows. |
| Window.WeekOfMay5 | main.py:234-236 | The week starting 2025-05-05 ends on 2025-05-11. |
| Window.PaddedValue | main.py:149-150 | A zero-padded number that fits its width reads back as that number. |
| Window.SlashedRoundTrip | main.py:149-150 | `%Y/%m/%d` has slashes at positions 4 and 7, and reading the three fields back gives the date. |
| Window.CompactDigits | main.py:179-180 | Removing the slashes leaves `YYYYMMDD`. |
| Window.FileNames | main.py:181 | The raw name is `output_YYYYMMDD-YYYYMMDD.txt`, and `.replace('.txt', '_formatted.txt')` gives the same stem with `_formatted.txt`. |
| Digest.CandidateCanonical | main.py:165-167 | A candidate keeps the article's summary, and its link is already canonical (canonicalising it again changes nothing), without brackets or tracking marker. |
| Digest.CandidatesFail | main.py:161 | One e-mail without an article section fails the whole run. |
| Digest.CandidatesSucceed | main.py:161 | When every e-mail has an article section, the candidates exist. |
| Digest.FirstIndex | main.py:168 | The position of the first candidate with a given link. |
| Digest.KeepFirstAppend | main.py:168-173 | A further candidate is appended exactly when no earlier candidate has its link; otherwise the kept list is unchanged. |
| Digest.KeepFirstDistinct | main.py:157-173 | The kept articles never share a link. |
| Digest.KeepFirstCovers | main.py:157-173 | Every candidate's link is kept. |
| Digest.KeepFirstFirsts | main.py:157-173 | Each kept article is the first candidate with its link, summary included. |
| Digest.KeepFirstOrdered | main.py:157-173 | Kept articles follow the order in which their links first appear. |
| Digest.KeepFirstIsFirstOccurrences | main.py:157-173 | The kept articles are the first occurrences of each link, in discovery order. |
| Digest.KeepFirstFacts | main.py:157-173 | The kept links are distinct, are the same set as the candidates' links, and number at most the candidates. |
| Digest.KeepFirstExample | main.py:157-173 | Of `[A(u1), B(u2), C(u1)]`, `[A, B]` is kept. |
| Digest.AddArticles | main.py:162-173 | The per-article loop of one e-mail extends the kept articles exactly as de-duplicating the longer candidate list would, with `urls` matching them index by index. |
| Digest.CollectArticles | main.py:157-173 | The per-e-mail loop fails exactly when some e-mail has no article section; otherwise it returns the first article per link, and `urls` lists their links in the same order. |
| Digest.NewsTextAppend | main.py:175-177 | Adding an article appends its entry `body\nurl\n\n`. |
| Digest.RenderNews | main.py:175-177 | The rendering loop produces the in-order concatenation of the entries. |
| Digest.NewsTextLines | main.py:175-177 | When summaries and links hold no newline, the news text reads back as summary, link, blank line per article. |
| Digest.DigestLines | main.py:182-189 | The digest text is, line by line, the period heading, a blank, `after～before`, a blank, the articles heading, three lines per article and two empty lines. |
| Digest.RunDigest | main.py:149-229 | A run fails exactly when the window overflows, a message fails or an e-mail lacks the article section. Otherwise its query, file names, raw text (the de-duplicated articles of the newest-first e-mails) and summary are as the source builds them. |
| Digest.RunFacts | main.py:157-181 | A completed run keeps the first occurrence of each link in discovery order, and both file names carry the window as `YYYYMMDD`. |

## Left out

- `authenticate_gmail` (main.py:20-42): the OAuth flow and the pickled token cache are I/O.
- The Gmail `list` and `get` calls (main.py:61-81) are the parameter `list(query, 30)`, which returns the full messages.
- The "no e-mails found" print (main.py:70), the date error print (main.py:112), the file writes (main.py:191-192, 226-227) and the final print (main.py:229) are not modelled; the run returns the names and texts instead.
- `datetime.strptime` (main.py:103) is the parameter `parse`, and `datetime.now()` (main.py:109, 113) is the clock parameter. Timestamps are integers, so mixing naive and aware datetimes in the sort (a `TypeError` in Python) cannot arise. The second format, with `(%Z)`, is still tried, as in the source, though no cleaned date can match it.
- The outer `except Exception` (main.py:111-113) yields the clock reading like the fallback at line 109; the parameterised parser cannot raise, so the two coincide.
- `base64.urlsafe_b64decode(...).decode('utf-8')` (main.py:120, 123) is the parameter `decode`; `None` stands for a decoding error.
- The OpenAI client and the prompt wording (main.py:195-222) are the parameter `summarize`. It receives the window and the raw digest text the prompt is built from.
- CanonicalUrl.TrackingCut: the tail must hold no bracket or newline. Deleting brackets can join pieces of the tail into a new `http`, and a newline starts a line of its own; both cases fall under CanonicalUrl.CanonicalizeByLine and CanonicalUrl.CollapseLine instead.
- Mail.SortNewestFirst: the in-place `list.sort` is modelled as a stable insertion sort on values.
- Window.Padded: `%Y` for years below 1000 is platform dependent in CPython; the model always pads to four digits.
- The `__main__` block (main.py:234-238) calls `main` without `subject_filter`, which raises `TypeError`; only its start date is used, in Window.WeekOfMay5.
