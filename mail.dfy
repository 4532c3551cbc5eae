/** Turning fetched Gmail messages into e-mail records: header lookup with
    defaults, date cleaning and the format-trying loop, the choice of the
    plain-text body, and the newest-first stable sort. The Gmail client,
    `strptime`, `datetime.now()` and base64/UTF-8 decoding are parameters. */
module Mail {
  import opened Wrappers
  import opened Text

  datatype Header = Header(name: string, value: string)

  /** One MIME part: its type and its `body.data`, when present. */
  datatype Part = Part(mimeType: string, data: Option<string>)

  /** A message payload: its headers, its `parts` list when the key is
      present, and the top-level `body.data` when both keys are present. */
  datatype Payload = Payload(headers: seq<Header>, parts: Option<seq<Part>>, bodyData: Option<string>)

  datatype Message = Message(id: string, payload: Payload)

  /** The record built per message; `date` is an abstract timestamp. */
  datatype Email = Email(id: string, subject: string, sender: string, date: int, body: string)

  /** `next((h['value'] for h in headers if h['name'] == name), default)`. */
  function HeaderValue(headers: seq<Header>, name: string, default: string): (v: string)
    ensures (forall i :: 0 <= i < |headers| ==> headers[i].name != name) ==> v == default
    ensures forall i :: (0 <= i < |headers| && headers[i].name == name &&
                         (forall j :: 0 <= j < i ==> headers[j].name != name)) ==> v == headers[i].value
  {
    if |headers| == 0 then default
    else if headers[0].name == name then headers[0].value
    else
      var v := HeaderValue(headers[1..], name, default);
      assert forall i :: 1 <= i < |headers| ==> headers[i] == headers[1..][i - 1];
      v
  }

  /** No `(` is followed, anywhere later, by a `)`. */
  ghost predicate NoParenGroup(s: string)
  {
    forall i, j :: 0 <= i < j < |s| && s[i] == '(' ==> s[j] != ')'
  }

  /** `re.sub(r'\([^)]*\)', '', s)`: scanning left to right, every `(` that
      has a `)` somewhere after it is deleted together with everything up to
      and including the first such `)`. */
  function StripParens(s: string): (r: string)
    ensures forall c :: c in r ==> c in s
    ensures NoParenGroup(r)
    decreases |s|
  {
    if s == [] then []
    else if s[0] == '(' && IndexFrom(s, ")", 1).Some? then
      StripParens(s[IndexFrom(s, ")", 1).value + 1..])
    else
      var rest := StripParens(s[1..]);
      var r := [s[0]] + rest;
      assert forall k :: 1 <= k < |r| ==> r[k] == rest[k - 1];
      if s[0] == '(' then NoCloseAfter(s); r else r
  }

  /** When no `)` is found after the first character, there is none. */
  lemma NoCloseAfter(s: string)
    requires s != [] && IndexFrom(s, ")", 1).None?
    ensures ')' !in s[1..]
  {
    forall m | 1 <= m < |s| ensures s[m] != ')' {
      assert s[m..m + 1][0] == s[m];
      assert !OccursAt(s, ")", m);
    }
  }

  /** A string without `(` is left alone. */
  lemma {:induction false} StripParensKeeps(s: string)
    requires '(' !in s
    ensures StripParens(s) == s
    decreases |s|
  {
    if s != [] {
      StripParensKeeps(s[1..]);
    }
  }

  /** A prefix without `(` passes through unchanged. */
  lemma {:induction false} StripParensPlain(a: string, s: string)
    requires '(' !in a
    ensures StripParens(a + s) == a + StripParens(s)
    decreases |a|
  {
    if a == [] {
      assert a + s == s;
    } else {
      var t := a + s;
      assert t[0] == a[0] && a[0] in a;
      assert t[1..] == a[1..] + s;
      StripParensPlain(a[1..], s);
      assert StripParens(t) == [a[0]] + StripParens(t[1..]);
      assert a == [a[0]] + a[1..];
    }
  }

  /** A parenthesised group without `)` inside is deleted whole. */
  lemma StripParensGroup(b: string, s: string)
    requires ')' !in b
    ensures StripParens("(" + b + ")" + s) == StripParens(s)
  {
    var t := "(" + b + ")" + s;
    var n := |b| + 1;
    assert t[n..n + 1] == ")";
    assert OccursAt(t, ")", n);
    forall j: nat | 1 <= j < n ensures !OccursAt(t, ")", j) {
      assert t[j..j + 1][0] == t[j] == b[j - 1];
      assert b[j - 1] in b;
    }
    assert IndexFrom(t, ")", 1) == Some(n);
    assert t[n + 1..] == s;
  }

  /** Without a `)` there is no group to delete, so an unclosed `(` is
      kept, like everything else. */
  lemma {:induction false} StripParensUnclosed(s: string)
    requires ')' !in s
    ensures StripParens(s) == s
    decreases |s|
  {
    if s != [] {
      forall j: nat | 1 <= j ensures !OccursAt(s, ")", j) {
        if j + 1 <= |s| {
          assert s[j..j + 1][0] == s[j] && s[j] in s;
        }
      }
      assert IndexFrom(s, ")", 1).None?;
      assert ')' !in s[1..];
      StripParensUnclosed(s[1..]);
      assert s == [s[0]] + s[1..];
    }
  }

  /** `re.sub(r'\([^)]*\)', '', date_str).strip()`. */
  function CleanDate(dateStr: string): (r: string)
    ensures NoParenGroup(r)
  {
    var t := StripParens(dateStr);
    var r := Trim(t);
    assert forall k :: 0 <= k < |r| ==> r[k] == t[LeadingSpace(t) + k];
    r
  }

  /** A date followed by a space and a parenthesised zone name, as in
      `Mon, 1 Jan 2024 10:00:00 +0000 (UTC)`, cleans to the date. */
  lemma CleanDateDropsZone(d: string, z: string)
    requires '(' !in d && ')' !in z
    requires |d| == 0 || (!IsSpace(d[0]) && !IsSpace(d[|d| - 1]))
    ensures CleanDate(d + " (" + z + ")") == d
  {
    assert d + " (" + z + ")" == (d + " ") + ("(" + z + ")" + "");
    StripParensPlain(d + " ", "(" + z + ")" + "");
    StripParensGroup(z, "");
    assert StripParens(d + " (" + z + ")") == d + " ";
    TrimTrailingSpace(d);
  }

  /** The formats tried, in order. */
  const DateFormats: seq<string> := [
    "%a, %d %b %Y %H:%M:%S %z",
    "%a, %d %b %Y %H:%M:%S %z (%Z)",
    "%d %b %Y %H:%M:%S %z"
  ]

  /** The timestamp from the first format that parses `cleaned`. */
  function FirstParse(cleaned: string, formats: seq<string>, parse: (string, string) -> Option<int>): Option<int>
  {
    if formats == [] then None
    else if parse(cleaned, formats[0]).Some? then parse(cleaned, formats[0])
    else FirstParse(cleaned, formats[1..], parse)
  }

  /** The timestamp of a `Date` header: the first format that parses the
      cleaned text, or the clock reading `now` when none does. */
  function ParsedDate(dateStr: string, parse: (string, string) -> Option<int>, now: int): int
  {
    FirstParse(CleanDate(dateStr), DateFormats, parse).GetOr(now)
  }

  /** The first successful format wins, and the clock is used exactly when
      every format fails. */
  lemma {:induction false} FirstParseIsFirstSuccess(cleaned: string, formats: seq<string>,
                                                    parse: (string, string) -> Option<int>)
    ensures FirstParse(cleaned, formats, parse).None? <==>
              forall k :: 0 <= k < |formats| ==> parse(cleaned, formats[k]).None?
    ensures forall k :: (0 <= k < |formats| && parse(cleaned, formats[k]).Some? &&
                         (forall m :: 0 <= m < k ==> parse(cleaned, formats[m]).None?)) ==>
                          FirstParse(cleaned, formats, parse) == parse(cleaned, formats[k])
  {
    if formats != [] {
      FirstParseIsFirstSuccess(cleaned, formats[1..], parse);
      assert forall k :: 1 <= k < |formats| ==> formats[k] == formats[1..][k - 1];
    }
  }

  /** The format-trying loop: the cleaned date is parsed with each format in
      turn until one succeeds; otherwise the clock reading is used. */
  method ParseDate(dateStr: string, parse: (string, string) -> Option<int>, now: int) returns (date: int)
    ensures date == ParsedDate(dateStr, parse, now)
  {
    var parsed: Option<int> := None;
    var i := 0;
    while i < |DateFormats|
      invariant 0 <= i <= |DateFormats|
      invariant parsed.None?
      invariant FirstParse(CleanDate(dateStr), DateFormats, parse)
                == FirstParse(CleanDate(dateStr), DateFormats[i..], parse)
    {
      var cleaned := CleanDate(dateStr);
      parsed := parse(cleaned, DateFormats[i]);
      if parsed.Some? {
        break;
      }
      assert DateFormats[i..][1..] == DateFormats[i + 1..];
      i := i + 1;
    }
    date := if parsed.Some? then parsed.value else now;
  }

  const PlainText := "text/plain"

  /** The index of the first `text/plain` part. */
  function FirstPlainPart(parts: seq<Part>): (r: Option<nat>)
    ensures r.Some? ==> r.value < |parts| && parts[r.value].mimeType == PlainText
    ensures r.Some? ==> forall j :: 0 <= j < r.value ==> parts[j].mimeType != PlainText
    ensures r.None? ==> forall j :: 0 <= j < |parts| ==> parts[j].mimeType != PlainText
  {
    if parts == [] then None
    else if parts[0].mimeType == PlainText then Some(0)
    else
      var r := FirstPlainPart(parts[1..]);
      assert forall j :: 1 <= j < |parts| ==> parts[j] == parts[1..][j - 1];
      if r.Some? then Some(r.value + 1) else None
  }

  /** The decoded text body of a payload, or None where Python raises: a
      `text/plain` part without `body.data`, or data `decode` rejects. When
      the payload has a `parts` list, the top-level body is never used. */
  function BodyText(p: Payload, decode: string -> Option<string>): Option<string>
  {
    match p.parts
    case Some(parts) =>
      (match FirstPlainPart(parts)
       case None => Some("")
       case Some(k) => if parts[k].data.Some? then decode(parts[k].data.value) else None)
    case None =>
      if p.bodyData.Some? then decode(p.bodyData.value) else Some("")
  }

  /** The body is the first `text/plain` part's data when the payload has
      parts (the empty text when none is), the top-level body data
      otherwise. */
  lemma BodyTextFacts(p: Payload, decode: string -> Option<string>)
    ensures p.parts.None? ==> BodyText(p, decode) == if p.bodyData.Some? then decode(p.bodyData.value) else Some("")
    ensures (p.parts.Some? &&
             forall j :: 0 <= j < |p.parts.value| ==> p.parts.value[j].mimeType != PlainText) ==>
              BodyText(p, decode) == Some("")
    ensures p.parts.Some? ==>
              forall k :: (0 <= k < |p.parts.value| && p.parts.value[k].mimeType == PlainText &&
                           (forall j :: 0 <= j < k ==> p.parts.value[j].mimeType != PlainText)) ==>
                BodyText(p, decode) == if p.parts.value[k].data.Some? then decode(p.parts.value[k].data.value) else None
  {
    if p.parts.Some? {
      var parts := p.parts.value;
      forall k | 0 <= k < |parts| && parts[k].mimeType == PlainText &&
                 (forall j :: 0 <= j < k ==> parts[j].mimeType != PlainText)
        ensures FirstPlainPart(parts) == Some(k)
      {
      }
    }
  }

  /** The body-choosing loop: it computes the body text. */
  method SelectBody(p: Payload, decode: string -> Option<string>) returns (body: Option<string>)
    ensures body == BodyText(p, decode)
  {
    body := Some("");
    if p.parts.Some? {
      var parts := p.parts.value;
      var i := 0;
      while i < |parts|
        invariant 0 <= i <= |parts|
        invariant forall j :: 0 <= j < i ==> parts[j].mimeType != PlainText
        invariant body == Some("")
      {
        if parts[i].mimeType == PlainText {
          body := if parts[i].data.Some? then decode(parts[i].data.value) else None;
          assert FirstPlainPart(parts) == Some(i);
          break;
        }
        i := i + 1;
      }
    } else if p.bodyData.Some? {
      body := decode(p.bodyData.value);
    }
  }

  /** Newest first: timestamps never increase along the list. */
  ghost predicate NewestFirst(s: seq<Email>)
  {
    forall i, j :: 0 <= i < j < |s| ==> s[i].date >= s[j].date
  }

  /** Inserts `e` before the first element that is not newer than it. */
  function InsertNewestFirst(e: Email, sorted: seq<Email>): (r: seq<Email>)
    ensures |r| == |sorted| + 1
  {
    if sorted == [] then [e]
    else if e.date >= sorted[0].date then [e] + sorted
    else [sorted[0]] + InsertNewestFirst(e, sorted[1..])
  }

  /** `email_list.sort(key=lambda x: x['date'], reverse=True)`: Python's
      sort is stable also in reverse, so records with equal dates keep their
      order. Modelled as an insertion sort from the back. */
  function SortNewestFirst(emails: seq<Email>): (r: seq<Email>)
    ensures |r| == |emails|
  {
    if emails == [] then []
    else InsertNewestFirst(emails[0], SortNewestFirst(emails[1..]))
  }

  /** The records with timestamp `t`, in list order. */
  function WithDate(s: seq<Email>, t: int): seq<Email>
  {
    if s == [] then [] else (if s[0].date == t then [s[0]] else []) + WithDate(s[1..], t)
  }

  /** No record is newer than `b`. */
  ghost predicate NoneNewer(s: seq<Email>, b: int)
  {
    forall i :: 0 <= i < |s| ==> s[i].date <= b
  }

  lemma {:induction false} InsertBounded(e: Email, sorted: seq<Email>, b: int)
    requires NoneNewer(sorted, b) && e.date <= b
    ensures NoneNewer(InsertNewestFirst(e, sorted), b)
  {
    if sorted != [] && e.date < sorted[0].date {
      InsertBounded(e, sorted[1..], b);
      var r := [sorted[0]] + InsertNewestFirst(e, sorted[1..]);
      assert forall i :: 1 <= i < |r| ==> r[i] == InsertNewestFirst(e, sorted[1..])[i - 1];
    }
  }

  lemma {:induction false} InsertKeepsOrder(e: Email, sorted: seq<Email>)
    requires NewestFirst(sorted)
    ensures NewestFirst(InsertNewestFirst(e, sorted))
  {
    if sorted == [] {
    } else if e.date >= sorted[0].date {
      var r := [e] + sorted;
      assert forall i :: 1 <= i < |r| ==> r[i] == sorted[i - 1];
    } else {
      var rest := sorted[1..];
      InsertKeepsOrder(e, rest);
      InsertBounded(e, rest, sorted[0].date);
      var ins := InsertNewestFirst(e, rest);
      var r := [sorted[0]] + ins;
      assert forall i :: 1 <= i < |r| ==> r[i] == ins[i - 1];
    }
  }

  /** The sorted list is newest first. */
  lemma {:induction false} SortIsNewestFirst(emails: seq<Email>)
    ensures NewestFirst(SortNewestFirst(emails))
  {
    if emails != [] {
      SortIsNewestFirst(emails[1..]);
      InsertKeepsOrder(emails[0], SortNewestFirst(emails[1..]));
    }
  }

  lemma {:induction false} InsertPermutes(e: Email, sorted: seq<Email>)
    ensures multiset(InsertNewestFirst(e, sorted)) == multiset(sorted) + multiset{e}
  {
    if sorted != [] && e.date < sorted[0].date {
      InsertPermutes(e, sorted[1..]);
      assert sorted == [sorted[0]] + sorted[1..];
    }
  }

  /** The sorted list is a permutation of the input. */
  lemma {:induction false} SortPermutes(emails: seq<Email>)
    ensures multiset(SortNewestFirst(emails)) == multiset(emails)
  {
    if emails != [] {
      SortPermutes(emails[1..]);
      InsertPermutes(emails[0], SortNewestFirst(emails[1..]));
      assert emails == [emails[0]] + emails[1..];
    }
  }

  function Only(e: Email, t: int): seq<Email>
  {
    if e.date == t then [e] else []
  }

  lemma WithDateCons(x: Email, s: seq<Email>, t: int)
    ensures WithDate([x] + s, t) == Only(x, t) + WithDate(s, t)
  {
    assert ([x] + s)[1..] == s;
  }

  lemma {:induction false} InsertWithDate(e: Email, sorted: seq<Email>, t: int)
    ensures WithDate(InsertNewestFirst(e, sorted), t) == Only(e, t) + WithDate(sorted, t)
  {
    if sorted == [] {
    } else if e.date >= sorted[0].date {
      WithDateCons(e, sorted, t);
    } else {
      var x, rest := sorted[0], sorted[1..];
      var ins := InsertNewestFirst(e, rest);
      assert InsertNewestFirst(e, sorted) == [x] + ins;
      InsertWithDate(e, rest, t);
      WithDateCons(x, ins, t);
      WithDateCons(x, rest, t);
      assert sorted == [x] + rest;
      OnlyApart(x, e, t, WithDate(rest, t));
    }
  }

  /** Two records with different timestamps: at most one carries `t`, so
      their filtered contributions can trade places. */
  lemma OnlyApart(x: Email, e: Email, t: int, s: seq<Email>)
    requires x.date != e.date
    ensures Only(x, t) + (Only(e, t) + s) == Only(e, t) + (Only(x, t) + s)
  {
    if x.date == t {
      assert Only(e, t) == [];
    } else {
      assert Only(x, t) == [];
    }
  }

  /** The sort is stable: for every timestamp, the records carrying it are
      in the same order before and after sorting. */
  lemma {:induction false} SortIsStable(emails: seq<Email>, t: int)
    ensures WithDate(SortNewestFirst(emails), t) == WithDate(emails, t)
  {
    if emails != [] {
      SortIsStable(emails[1..], t);
      InsertWithDate(emails[0], SortNewestFirst(emails[1..]), t);
      WithDateCons(emails[0], emails[1..], t);
      assert emails == [emails[0]] + emails[1..];
    }
  }

  /** The record the loop body builds for one message, or None where it
      raises. `now` is the clock reading used if the date does not parse. */
  function EmailOf(m: Message, decode: string -> Option<string>,
                   parse: (string, string) -> Option<int>, now: int): Option<Email>
  {
    var headers := m.payload.headers;
    match BodyText(m.payload, decode)
    case None => None
    case Some(body) =>
      Some(Email(m.id,
                 HeaderValue(headers, "Subject", "No Subject"),
                 HeaderValue(headers, "From", "Unknown"),
                 ParsedDate(HeaderValue(headers, "Date", ""), parse, now),
                 body))
  }

  /** The records of all messages in fetch order; `clock(i)` is the clock
      reading while message `i` is processed. */
  function EmailsOf(messages: seq<Message>, decode: string -> Option<string>,
                    parse: (string, string) -> Option<int>, clock: nat -> int): Option<seq<Email>>
  {
    if messages == [] then Some([])
    else
      var n := |messages| - 1;
      match EmailsOf(messages[..n], decode, parse, clock)
      case None => None
      case Some(es) =>
        match EmailOf(messages[n], decode, parse, clock(n))
        case None => None
        case Some(e) => Some(es + [e])
  }

  /** The list fails exactly when some message fails. */
  lemma {:induction false} EmailsOfNone(messages: seq<Message>, decode: string -> Option<string>,
                                        parse: (string, string) -> Option<int>, clock: nat -> int)
    ensures EmailsOf(messages, decode, parse, clock).None? <==>
            exists i :: 0 <= i < |messages| && EmailOf(messages[i], decode, parse, clock(i)).None?
    decreases |messages|
  {
    if messages != [] {
      var n := |messages| - 1;
      var init := messages[..n];
      EmailsOfNone(init, decode, parse, clock);
      if EmailsOf(init, decode, parse, clock).None? {
        var i :| 0 <= i < n && EmailOf(init[i], decode, parse, clock(i)).None?;
        assert init[i] == messages[i];
        assert EmailsOf(messages, decode, parse, clock).None?;
      } else if EmailOf(messages[n], decode, parse, clock(n)).None? {
        assert EmailsOf(messages, decode, parse, clock).None?;
      } else {
        assert EmailsOf(messages, decode, parse, clock).Some?;
        forall i | 0 <= i < |messages| ensures EmailOf(messages[i], decode, parse, clock(i)).Some? {
          if i < n {
            assert !EmailOf(init[i], decode, parse, clock(i)).None?;
            assert init[i] == messages[i];
          } else {
            assert i == n;
          }
        }
      }
    }
  }

  /** When the list succeeds it holds the record of every message, in
      fetch order. */
  lemma {:induction false} EmailsOfSome(messages: seq<Message>, decode: string -> Option<string>,
                                        parse: (string, string) -> Option<int>, clock: nat -> int)
    requires EmailsOf(messages, decode, parse, clock).Some?
    ensures var es := EmailsOf(messages, decode, parse, clock).value;
            |es| == |messages| &&
            forall i :: 0 <= i < |messages| ==> EmailOf(messages[i], decode, parse, clock(i)) == Some(es[i])
    decreases |messages|
  {
    if messages != [] {
      var n := |messages| - 1;
      var init := messages[..n];
      EmailsOfSome(init, decode, parse, clock);
      var es := EmailsOf(init, decode, parse, clock).value;
      var e := EmailOf(messages[n], decode, parse, clock(n)).value;
      assert EmailsOf(messages, decode, parse, clock).value == es + [e];
      RecordsExtend(messages, es, e, decode, parse, clock);
    }
  }

  /** The records of all but the last message, followed by the last one's
      record, are the records of all messages. */
  lemma RecordsExtend(messages: seq<Message>, es: seq<Email>, e: Email, decode: string -> Option<string>,
                      parse: (string, string) -> Option<int>, clock: nat -> int)
    requires |messages| == |es| + 1
    requires forall i :: 0 <= i < |es| ==> EmailOf(messages[..|es|][i], decode, parse, clock(i)) == Some(es[i])
    requires EmailOf(messages[|es|], decode, parse, clock(|es|)) == Some(e)
    ensures forall i :: 0 <= i < |messages| ==> EmailOf(messages[i], decode, parse, clock(i)) == Some((es + [e])[i])
  {
    forall i | 0 <= i < |messages| ensures EmailOf(messages[i], decode, parse, clock(i)) == Some((es + [e])[i]) {
      if i < |es| {
        assert messages[..|es|][i] == messages[i];
        assert EmailOf(messages[..|es|][i], decode, parse, clock(i)) == Some(es[i]);
      }
    }
  }

  /** A failure on one message fails the whole list. */
  lemma EmailsOfFails(messages: seq<Message>, i: nat, decode: string -> Option<string>,
                      parse: (string, string) -> Option<int>, clock: nat -> int)
    requires i < |messages| && EmailOf(messages[i], decode, parse, clock(i)).None?
    ensures EmailsOf(messages, decode, parse, clock).None?
  {
    EmailsOfNone(messages, decode, parse, clock);
  }

  /** The per-message loop of the fetch: each fetched message becomes a
      record (subject, sender, parsed date, body), the records are appended
      in fetch order and finally sorted newest first. None where the source
      raises on a message body. */
  method GetEmails(messages: seq<Message>, decode: string -> Option<string>,
                   parse: (string, string) -> Option<int>, clock: nat -> int)
    returns (r: Option<seq<Email>>)
    ensures r.None? <==> EmailsOf(messages, decode, parse, clock).None?
    ensures r.None? <==> exists i :: 0 <= i < |messages| && EmailOf(messages[i], decode, parse, clock(i)).None?
    ensures r.Some? ==> r.value == SortNewestFirst(EmailsOf(messages, decode, parse, clock).value)
  {
    EmailsOfNone(messages, decode, parse, clock);
    if |messages| == 0 {
      return Some([]);
    }
    var emailList: seq<Email> := [];
    for i := 0 to |messages|
      invariant EmailsOf(messages[..i], decode, parse, clock) == Some(emailList)
    {
      var m := messages[i];
      var headers := m.payload.headers;
      var subject := HeaderValue(headers, "Subject", "No Subject");
      var sender := HeaderValue(headers, "From", "Unknown");
      var dateStr := HeaderValue(headers, "Date", "");
      var date := ParseDate(dateStr, parse, clock(i));
      var body := SelectBody(m.payload, decode);
      assert messages[..i + 1][..i] == messages[..i];
      if body.None? {
        assert EmailOf(messages[i], decode, parse, clock(i)).None?;
        return None;
      }
      emailList := emailList + [Email(m.id, subject, sender, date, body.value)];
    }
    assert messages[..|messages|] == messages;
    r := Some(SortNewestFirst(emailList));
  }
}
