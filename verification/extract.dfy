/** The e-mail extraction script: the clean-up of extracted PDF text, the
    header scanner that reads the first e-mail of a document, the disclaimer
    truncation and the newest-first ordering of the collected e-mails. */
module Extract {
  import opened Seqs
  import opened Text
  import opened Matching
  import opened Sorting
  import Csv

  /** `=\d{2,3}` at the front of `s`: an equals sign and two digits, and a third
      digit when there is one (the repetition is greedy). */
  function EncodedAt(s: string): (r: Option<nat>)
    ensures r.Some? ==> 3 <= r.value <= 4 && r.value <= |s|
    ensures r.Some? ==> s[0] == '=' && IsDigit(s[1]) && IsDigit(s[2])
    ensures |s| >= 3 && s[0] == '=' && IsDigit(s[1]) && IsDigit(s[2]) ==>
              r.Some? && (r.value == 4 <==> |s| >= 4 && IsDigit(s[3]))
  {
    if |s| >= 3 && s[0] == '=' && IsDigit(s[1]) && IsDigit(s[2]) then
      if |s| >= 4 && IsDigit(s[3]) then Some(4) else Some(3)
    else None
  }

  /** An equals sign and two or three digits, with no further digit after
      them, preceded by text `t` in which no match starts, is deleted; the text
      before it is kept and the deletion goes on after it. */
  lemma EncodedRemoved(t: string, ds: string, u: string)
    requires 2 <= |ds| <= 3 && forall i :: 0 <= i < |ds| ==> IsDigit(ds[i])
    requires |ds| == 3 || |u| == 0 || !IsDigit(u[0])
    requires forall j :: 0 <= j < |t| ==> EncodedAt((t + (['='] + ds) + u)[j..]).None?
    ensures RemoveMatches(t + (['='] + ds) + u, EncodedAt) == t + RemoveMatches(u, EncodedAt)
  {
    var m := ['='] + ds;
    assert (m + u)[1] == ds[0] && (m + u)[2] == ds[1];
    if |ds| == 3 {
      assert (m + u)[3] == ds[2];
    } else if |u| > 0 {
      assert (m + u)[3] == u[0];
    }
    RemoveOne(t, m, u, EncodedAt);
  }

  /** After whitespace has been collapsed no carriage return is left, so the
      `\r\n` replacement that follows never changes anything. */
  lemma CrLfStepIsNoOp(s: string)
    ensures ReplaceAll(Collapse(s), "\r\n", "\n") == Collapse(s)
  {
    var c := Collapse(s);
    assert '\r' !in c;
    if Contains(c, "\r\n") {
      ContainsFirstChar(c, "\r\n");
    }
    ReplaceAbsent(c, "\r\n", "\n");
  }

  /** `clean_text`: soft line breaks become line breaks, encoded characters and
      the `=8E` artifact are deleted, whitespace runs become one space, and the
      ends are stripped. */
  function CleanText(text: string): (r: string)
    ensures Normalized(r)
    ensures '\n' !in r
  {
    var t1 := ReplaceAll(text, "=br>", "\n");
    var t2 := RemoveMatches(t1, EncodedAt);
    var t3 := ReplaceAll(t2, "=8E", "");
    var t4 := Collapse(t3);
    CrLfStepIsNoOp(t3);
    var t5 := ReplaceAll(t4, "\r\n", "\n");
    CollapseTrimNormalized(t3);
    Trim(t5)
  }

  /** Text already in normalised form, with nothing to replace or delete,
      comes out unchanged. */
  lemma CleanTextFixed(s: string)
    requires Normalized(s) && NoMatch(s, EncodedAt)
    requires !Contains(s, "=br>") && !Contains(s, "=8E")
    ensures CleanText(s) == s
  {
    ReplaceAbsent(s, "=br>", "\n");
    NoMatchUnchanged(s, EncodedAt);
    ReplaceAbsent(s, "=8E", "");
    CollapseFixed(s);
    CrLfStepIsNoOp(s);
    TrimOfTrimmed(s);
  }

  /** A soft line break between text without `=` becomes a line break. */
  lemma BreakReplaced(a: string, b: string)
    requires '=' !in a && '=' !in b
    ensures ReplaceAll(a + "=br>" + b, "=br>", "\n") == a + "\n" + b
  {
    var br := "=br>";
    assert a + br + b == a + (br + b);
    ReplacePrefix(a, br + b, br, "\n");
    assert (br + b)[..4] == br && (br + b)[4..] == b;
    LacksFirstChar(b, br);
    ReplaceAbsent(b, br, "\n");
  }

  /** Text without `=` holds no encoded character and no `=8E`. */
  lemma NoEquals(t: string)
    requires '=' !in t
    ensures ReplaceAll(RemoveMatches(t, EncodedAt), "=8E", "") == t
  {
    forall j | 0 <= j < |t| ensures EncodedAt(t[j..]).None? {
      assert t[j..][0] == t[j];
    }
    NoMatchUnchanged(t, EncodedAt);
    LacksFirstChar(t, "=8E");
    ReplaceAbsent(t, "=8E", "");
  }

  /** A line break between two pieces of normalised text collapses to one
      space, and the result is already stripped. */
  lemma BreakCollapsed(a: string, b: string)
    requires Normalized(a) && Normalized(b) && |a| > 0 && |b| > 0
    ensures Trim(Collapse(a + "\n" + b)) == a + " " + b
  {
    assert AllSpace("\n");
    CollapseGap(a, "\n", b);
  }

  /** A soft line break between two pieces of normalised text ends as one
      space: it becomes a line break, which whitespace collapsing turns into a
      space that stripping keeps, since it is inside the text. */
  lemma CleanTextBreak(a: string, b: string)
    requires Normalized(a) && Normalized(b) && |a| > 0 && |b| > 0
    requires '=' !in a && '=' !in b
    ensures CleanText(a + "=br>" + b) == a + " " + b
  {
    var t1 := a + "\n" + b;
    BreakReplaced(a, b);
    assert '=' !in t1;
    NoEquals(t1);
    CrLfStepIsNoOp(t1);
    BreakCollapsed(a, b);
  }

  /** `=` and digits hold no soft line break, so the first replacement leaves
      text with that one `=` unchanged. */
  lemma DigitsNotBreak(a: string, ds: string, b: string)
    requires '=' !in a && '=' !in b
    requires |ds| > 0 && IsDigit(ds[0]) && forall i :: 0 <= i < |ds| ==> ds[i] != '='
    ensures ReplaceAll(a + (['='] + ds) + b, "=br>", "\n") == a + (['='] + ds) + b
  {
    var br := "=br>";
    var z := ds + b;
    var y := ['='] + z;
    AppendAssoc(['='], ds, b);
    AppendAssoc(a, ['='] + ds, b);
    ReplacePrefix(a, y, br, "\n");
    assert !StartsWith(y, br) by {
      if |br| <= |y| {
        assert y[0..4][1] == y[1] == ds[0];
      }
    }
    ReplaceSkip('=', z, br, "\n");
    assert '=' !in z;
    LacksFirstChar(z, br);
    ReplaceAbsent(z, br, "\n");
  }

  /** An encoded character between two pieces of normalised text without `=`
      is deleted and leaves nothing in its place: `=` and two digits, or three
      when a third follows. */
  lemma CleanTextEncoded(a: string, ds: string, b: string)
    requires Normalized(a) && Normalized(b)
    requires '=' !in a && '=' !in b
    requires 2 <= |ds| <= 3 && forall i :: 0 <= i < |ds| ==> IsDigit(ds[i])
    requires |ds| == 3 || |b| == 0 || !IsDigit(b[0])
    ensures CleanText(a + "=" + ds + b) == a + b
  {
    var s := a + (['='] + ds) + b;
    assert a + "=" + ds + b == s;
    DigitsNotBreak(a, ds, b);
    forall j | 0 <= j < |a| ensures EncodedAt(s[j..]).None? {
      assert s[j..][0] == a[j];
    }
    EncodedRemoved(a, ds, b);
    forall j | 0 <= j < |b| ensures EncodedAt(b[j..]).None? {
      assert b[j..][0] == b[j];
    }
    NoMatchUnchanged(b, EncodedAt);
    assert '=' !in a + b;
    LacksFirstChar(a + b, "=8E");
    ReplaceAbsent(a + b, "=8E", "");
    NormalizedJoin(a, b);
    CollapseFixed(a + b);
    CrLfStepIsNoOp(a + b);
    TrimOfTrimmed(a + b);
  }

  predicate IsQuote(c: char) {
    c == '"'
  }

  /** `.strip().strip('"')` followed by `clean_text`: how every header value is
      taken from the text after its key. */
  function HeaderValue(v: string): (r: string)
    ensures Normalized(r)
  {
    CleanText(TrimWhere(Trim(v), IsQuote))
  }

  /** `split(":", 1)[1]`: the text after the first colon. The lines it is
      applied to always hold one. */
  function AfterColon(line: string): (r: string)
    ensures |r| < |line| || line == r == ""
  {
    match IndexOf(line, ":")
    case Some(i) => line[i + 1..]
    case None => ""
  }

  /** Only a colon lower-cases to a colon. */
  lemma LowerColon(c: char)
    ensures LowerChar(c) == ':' <==> c == ':'
  {
  }

  /** On a line whose lower-cased form starts with a key that ends in its only
      colon, the text after the first colon is the text after the key. */
  lemma AfterKey(line: string, key: string)
    requires |key| > 0 && key[|key| - 1] == ':'
    requires forall i :: 0 <= i < |key| - 1 ==> key[i] != ':'
    requires StartsWith(Lower(line), key)
    ensures AfterColon(line) == line[|key|..]
  {
    var k := |key| - 1;
    assert Lower(line)[k] == key[k];
    LowerColon(line[k]);
    assert OccursAt(line, ":", k) by {
      assert line[k..k + 1] == [line[k]];
    }
    forall j | 0 <= j < k ensures !OccursAt(line, ":", j) {
      assert Lower(line)[j] == key[j];
      LowerColon(line[j]);
      assert line[j..j + 1] == [line[j]];
    }
    var i := IndexOf(line, ":").value;
    assert i == k;
  }

  /** The header fields and the content gathered so far. */
  datatype Email = Email(from: string, to: string, sent: string, subject: string, content: string)

  const NoEmail := Email("", "", "", "", "")

  /** From, To and Sent are all known: the condition for content to grow and
      for the e-mail to be kept. */
  predicate Complete(e: Email) {
    e.from != "" && e.to != "" && e.sent != ""
  }

  /** `headers["Sent"] = utc_date or raw_date`: the normalised date when there
      is a non-empty one, the raw text otherwise. */
  function SentValue(raw: string, normalize: string -> Option<string>): (r: string)
    ensures normalize(raw).Some? && normalize(raw).value != "" ==> r == normalize(raw).value
    ensures normalize(raw).None? || normalize(raw) == Some("") ==> r == raw
    ensures raw != "" ==> r != ""
  {
    match normalize(raw)
    case Some(d) => if d != "" then d else raw
    case None => raw
  }

  const KeyFrom := "from:"
  const KeyTo := "to:"
  const KeySent := "sent:"
  const KeyDate := "date:"
  const KeySubject := "subject:"
  const Banner := "****************************************************"
  const Disclaimer := "the information contained in this communication is"

  /** The reply line that ends a message from the princess. */
  predicate ReplyMarker(e: Email, low: string) {
    Contains(Lower(e.from), "kronprinsessen") && Contains(low, "den") && Contains(low, "skrev")
  }

  /** The banner or disclaimer that ends a message from Epstein. */
  predicate DisclaimerMarker(e: Email, low: string) {
    Contains(Lower(e.from), "epstein") && (Contains(low, Banner) || Contains(low, Disclaimer))
  }

  /** What one line does to the scan: it goes on with an updated e-mail, or it
      stops. */
  datatype Step = Next(email: Email) | Stop

  /** The header fields that hold a value keep it, and content only grows. */
  predicate Keeps(e: Email, f: Email) {
    && (e.from != "" ==> f.from == e.from)
    && (e.to != "" ==> f.to == e.to)
    && (e.sent != "" ==> f.sent == e.sent)
    && (e.subject != "" ==> f.subject == e.subject)
    && e.content <= f.content
  }

  /** The header line `line` (stripped) would fill an empty field of `e`. */
  predicate FillsHeader(e: Email, line: string) {
    var low := Lower(line);
    || (StartsWith(low, KeyFrom) && e.from == "")
    || (StartsWith(low, KeyTo) && e.to == "")
    || ((StartsWith(low, KeySent) || StartsWith(low, KeyDate)) && e.sent == "")
    || (StartsWith(low, KeySubject) && e.subject == "")
  }

  /** One pass of the loop body of `parse_first_email` over a raw line. */
  function ScanLine(e: Email, raw: string, normalize: string -> Option<string>): (r: Step)
    ensures Trim(raw) == "" ==> r == Next(e)
    ensures r.Next? ==> Keeps(e, r.email)
    ensures r.Next? && r.email.content != e.content ==>
              Complete(e) && r.email.content == e.content + " " + CleanText(Trim(raw))
    ensures r.Stop? ==> !FillsHeader(e, Trim(raw))
                        && (ReplyMarker(e, Lower(Trim(raw))) || DisclaimerMarker(e, Lower(Trim(raw))))
    ensures !Complete(e) && !FillsHeader(e, Trim(raw)) && r.Next? ==> r.email == e
    ensures (&& Trim(raw) != "" && !FillsHeader(e, Trim(raw))
             && (ReplyMarker(e, Lower(Trim(raw))) || DisclaimerMarker(e, Lower(Trim(raw))))) ==> r == Stop
    ensures (&& Trim(raw) != "" && !FillsHeader(e, Trim(raw)) && Complete(e)
             && !ReplyMarker(e, Lower(Trim(raw))) && !DisclaimerMarker(e, Lower(Trim(raw)))) ==>
              r == Next(e.(content := e.content + " " + CleanText(Trim(raw))))
  {
    var line := Trim(raw);
    var low := Lower(line);
    if line == "" then Next(e)
    else if StartsWith(low, KeyFrom) && e.from == "" then
      Next(e.(from := HeaderValue(line[5..])))
    else if StartsWith(low, KeyTo) && e.to == "" then
      Next(e.(to := HeaderValue(line[3..])))
    else if (StartsWith(low, KeySent) || StartsWith(low, KeyDate)) && e.sent == "" then
      Next(e.(sent := SentValue(HeaderValue(AfterColon(line)), normalize)))
    else if StartsWith(low, KeySubject) && e.subject == "" then
      Next(e.(subject := HeaderValue(AfterColon(line))))
    else if ReplyMarker(e, low) || DisclaimerMarker(e, low) then Stop
    else if Complete(e) then Next(e.(content := e.content + " " + CleanText(line)))
    else Next(e)
  }

  /** Where the scan of some lines ends: the e-mail, and whether a marker
      stopped it. */
  datatype Outcome = Outcome(email: Email, stopped: bool)

  /** The loop of `parse_first_email` over the lines, from the e-mail `e`. */
  function ScanLines(lines: seq<string>, e: Email, normalize: string -> Option<string>): (r: Outcome)
    ensures Keeps(e, r.email)
    decreases |lines|
  {
    if |lines| == 0 then Outcome(e, false)
    else
      match ScanLine(e, lines[0], normalize)
      case Stop => Outcome(e, true)
      case Next(f) => ScanLines(lines[1..], f, normalize)
  }

  /** A From line fills an empty From from the text after the key. */
  lemma FromAfterKey(e: Email, raw: string, normalize: string -> Option<string>)
    requires StartsWith(Lower(Trim(raw)), KeyFrom) && e.from == ""
    ensures ScanLine(e, raw, normalize) == Next(e.(from := HeaderValue(Trim(raw)[5..])))
  {
  }

  /** A To line fills an empty To from the text after the key; it cannot also
      be a From line. */
  lemma ToAfterKey(e: Email, raw: string, normalize: string -> Option<string>)
    requires StartsWith(Lower(Trim(raw)), KeyTo) && e.to == ""
    ensures ScanLine(e, raw, normalize) == Next(e.(to := HeaderValue(Trim(raw)[3..])))
  {
    var low := Lower(Trim(raw));
    assert !StartsWith(low, KeyFrom) by {
      assert low[0] == KeyTo[0];
    }
  }

  /** Sent and Date values are read from the text after the key: the first
      colon of the line is the key's own. */
  lemma SentAfterKey(e: Email, raw: string, normalize: string -> Option<string>, key: string)
    requires key == KeySent || key == KeyDate
    requires StartsWith(Lower(Trim(raw)), key) && e.sent == ""
    ensures ScanLine(e, raw, normalize) == Next(e.(sent := SentValue(HeaderValue(Trim(raw)[5..]), normalize)))
  {
    AfterKey(Trim(raw), key);
    KeysApart(Lower(Trim(raw)), key);
  }

  /** A Subject value is read from the text after the key. */
  lemma SubjectAfterKey(e: Email, raw: string, normalize: string -> Option<string>)
    requires StartsWith(Lower(Trim(raw)), KeySubject) && e.subject == ""
    ensures ScanLine(e, raw, normalize) == Next(e.(subject := HeaderValue(Trim(raw)[8..])))
  {
    AfterKey(Trim(raw), KeySubject);
    KeysApart(Lower(Trim(raw)), KeySubject);
  }

  /** A line starts with at most one key; Sent and Date share a branch. */
  lemma KeysApart(low: string, key: string)
    requires key in {KeySent, KeyDate, KeySubject} && StartsWith(low, key)
    ensures !StartsWith(low, KeyFrom) && !StartsWith(low, KeyTo)
    ensures key == KeySubject ==> !StartsWith(low, KeySent) && !StartsWith(low, KeyDate)
  {
    assert low[0] == key[0] && low[1] == key[1];
  }

  /** The first header line of each kind that the scan reaches before any
      stop fills that header, and its value stays to the end: a line `l` after
      lines `a` that left the header empty and did not stop the scan decides
      it, whatever lines `b` follow. */
  lemma FirstHeaderFills(a: seq<string>, l: string, b: seq<string>, e: Email,
                         normalize: string -> Option<string>)
    requires !ScanLines(a, e, normalize).stopped
    ensures var m := ScanLines(a, e, normalize).email;
      var f := ScanLines(a + [l] + b, e, normalize).email;
      var line := Trim(l);
      && (StartsWith(Lower(line), KeyFrom) && m.from == "" && HeaderValue(line[5..]) != "" ==>
            f.from == HeaderValue(line[5..]))
      && (StartsWith(Lower(line), KeyTo) && m.to == "" && HeaderValue(line[3..]) != "" ==>
            f.to == HeaderValue(line[3..]))
      && ((StartsWith(Lower(line), KeySent) || StartsWith(Lower(line), KeyDate)) && m.sent == ""
          && HeaderValue(line[5..]) != "" ==>
            f.sent == SentValue(HeaderValue(line[5..]), normalize))
      && (StartsWith(Lower(line), KeySubject) && m.subject == "" && HeaderValue(line[8..]) != "" ==>
            f.subject == HeaderValue(line[8..]))
  {
    var m := ScanLines(a, e, normalize).email;
    var line := Trim(l);
    assert a + [l] + b == a + ([l] + b);
    ScanAppend(a, [l] + b, e, normalize);
    assert ([l] + b)[0] == l && ([l] + b)[1..] == b;
    if StartsWith(Lower(line), KeyFrom) && m.from == "" {
      FromAfterKey(m, l, normalize);
    }
    if StartsWith(Lower(line), KeyTo) && m.to == "" {
      ToAfterKey(m, l, normalize);
    }
    if StartsWith(Lower(line), KeySent) && m.sent == "" {
      SentAfterKey(m, l, normalize, KeySent);
    }
    if StartsWith(Lower(line), KeyDate) && m.sent == "" {
      SentAfterKey(m, l, normalize, KeyDate);
    }
    if StartsWith(Lower(line), KeySubject) && m.subject == "" {
      SubjectAfterKey(m, l, normalize);
    }
  }

  /** Content grows only once From, To and Sent are all known, and they stay
      known: an e-mail whose content grew during a scan is complete. */
  lemma {:induction false} ContentNeedsHeaders(lines: seq<string>, e: Email, normalize: string -> Option<string>)
    ensures var f := ScanLines(lines, e, normalize).email;
      f.content != e.content ==> Complete(f)
    decreases |lines|
  {
    if |lines| > 0 {
      match ScanLine(e, lines[0], normalize)
      case Stop =>
      case Next(f) => ContentNeedsHeaders(lines[1..], f, normalize);
    }
  }

  /** Scanning two blocks of lines is scanning the first, then, unless a marker
      stopped it, the second: lines after a stop contribute nothing. */
  lemma {:induction false} ScanAppend(a: seq<string>, b: seq<string>, e: Email, normalize: string -> Option<string>)
    ensures ScanLines(a + b, e, normalize)
         == (var o := ScanLines(a, e, normalize); if o.stopped then o else ScanLines(b, o.email, normalize))
    decreases |a|
  {
    if |a| == 0 {
      assert a + b == b;
    } else {
      TailAppend(a, b, []);
      assert a + b + [] == a + b;
      assert a[1..] + b + [] == a[1..] + b;
      match ScanLine(e, a[0], normalize)
      case Stop =>
      case Next(f) => ScanAppend(a[1..], b, f, normalize);
    }
  }

  /** The line breaks `splitlines` recognises. */
  predicate IsLineBreak(c: char) {
    || c == '\n' || c == '\r' || c == '\U{B}' || c == '\U{C}'
    || c == '\U{1C}' || c == '\U{1D}' || c == '\U{1E}' || c == '\U{85}'
    || c == '\U{2028}' || c == '\U{2029}'
  }

  /** `parse_first_email`: the e-mail read from the document's text, if From,
      To and Sent were all found. The date normaliser is a parameter. */
  function ParseFirstEmail(text: string, normalize: string -> Option<string>): (r: Option<Email>)
    ensures r.Some? ==> Complete(r.value)
    ensures r.Some? ==> r.value == ScanLines(SplitWhere(text, IsLineBreak), NoEmail, normalize).email
    ensures r.None? ==> !Complete(ScanLines(SplitWhere(text, IsLineBreak), NoEmail, normalize).email)
  {
    var o := ScanLines(SplitWhere(text, IsLineBreak), NoEmail, normalize);
    if o.email.from == "" || o.email.to == "" || o.email.sent == "" then None
    else Some(o.email)
  }

  /** Content is cut just before the first occurrence of the disclaimer,
      compared case-insensitively; without one it is left as it is. */
  function TruncateDisclaimer(content: string): (r: string)
    ensures r <= content
    ensures !Contains(Lower(content), Disclaimer) ==> r == content
    ensures Contains(Lower(content), Disclaimer) ==>
              && OccursAt(Lower(content), Disclaimer, |r|)
              && forall j :: 0 <= j < |r| ==> !OccursAt(Lower(content), Disclaimer, j)
  {
    if content != "" then
      match IndexOf(Lower(content), Disclaimer)
      case Some(i) => content[..i]
      case None => content
    else content
  }

  lemma LowerPrefix(s: string, n: nat)
    requires n <= |s|
    ensures Lower(s[..n]) == Lower(s)[..n]
  {
  }

  /** Truncated content holds no disclaimer, so truncating again changes
      nothing. */
  lemma TruncateIdempotent(content: string)
    ensures !Contains(Lower(TruncateDisclaimer(content)), Disclaimer)
    ensures TruncateDisclaimer(TruncateDisclaimer(content)) == TruncateDisclaimer(content)
  {
    var r := TruncateDisclaimer(content);
    if Contains(Lower(content), Disclaimer) {
      LowerPrefix(content, |r|);
      NotBeforeFirst(Lower(content), Disclaimer, |r|);
    }
  }

  /** A document: the file it came from and the text extracted from it. */
  datatype Document = Document(file: string, text: string)

  /** An e-mail as written out, with the file it came from. */
  datatype Row = Row(file: string, email: Email)

  /** The loop body for one document: the e-mail if one was found, with its
      content truncated at the disclaimer. */
  function Extracted(d: Document, normalize: string -> Option<string>): (r: seq<Row>)
    ensures |r| <= 1
    ensures |r| == 1 <==> ParseFirstEmail(d.text, normalize).Some?
    ensures forall k :: 0 <= k < |r| ==> r[k].file == d.file && Complete(r[k].email)
    ensures |r| == 1 ==>
              var e := ParseFirstEmail(d.text, normalize).value;
              r[0].email == e.(content := TruncateDisclaimer(e.content))
  {
    match ParseFirstEmail(d.text, normalize)
    case Some(e) => [Row(d.file, e.(content := TruncateDisclaimer(e.content)))]
    case None => []
  }

  predicate RowComplete(row: Row) {
    Complete(row.email)
  }

  /** The e-mails of all documents, in document order. */
  function Collect(docs: seq<Document>, normalize: string -> Option<string>): (r: seq<Row>)
    ensures |r| <= |docs|
    ensures forall k :: 0 <= k < |r| ==> RowComplete(r[k])
    decreases |docs|
  {
    if |docs| == 0 then [] else Extracted(docs[0], normalize) + Collect(docs[1..], normalize)
  }

  /** The documents are read in order: the rows of two runs of documents are
      the rows of the first followed by those of the second, and a single
      document gives its own rows. */
  lemma {:induction false} CollectAppend(a: seq<Document>, b: seq<Document>, d: Document,
                                         normalize: string -> Option<string>)
    ensures Collect([d], normalize) == Extracted(d, normalize)
    ensures Collect(a + b, normalize) == Collect(a, normalize) + Collect(b, normalize)
    decreases |a|
  {
    assert [d][1..] == [];
    if |a| == 0 {
      assert a + b == b;
    } else {
      assert (a + b)[0] == a[0] && (a + b)[1..] == a[1..] + b;
      CollectAppend(a[1..], b, d, normalize);
      AppendAssoc(Extracted(a[0], normalize), Collect(a[1..], normalize), Collect(b, normalize));
    }
  }

  /** Python's `<=` on strings: code-point by code-point, a prefix first. */
  predicate LexLeq(a: string, b: string)
    decreases |a|
  {
    |a| == 0 || (|b| > 0 && (a[0] < b[0] || (a[0] == b[0] && LexLeq(a[1..], b[1..]))))
  }

  lemma {:induction false} LexTotal(a: string, b: string)
    ensures LexLeq(a, b) || LexLeq(b, a)
    decreases |a|
  {
    if |a| > 0 && |b| > 0 && a[0] == b[0] {
      LexTotal(a[1..], b[1..]);
    }
  }

  lemma {:induction false} LexTrans(a: string, b: string, c: string)
    requires LexLeq(a, b) && LexLeq(b, c)
    ensures LexLeq(a, c)
    decreases |a|
  {
    if |a| > 0 && a[0] == b[0] && b[0] == c[0] {
      LexTrans(a[1..], b[1..], c[1..]);
    }
  }

  /** Two strings that each come no later than the other are equal. */
  lemma {:induction false} LexAntisym(a: string, b: string)
    requires LexLeq(a, b) && LexLeq(b, a)
    ensures a == b
    decreases |a|
  {
    if |a| > 0 {
      LexAntisym(a[1..], b[1..]);
      HeadTail(a);
      HeadTail(b);
    }
  }

  /** The key of `sorted(..., key=Sent, reverse=True)`: `a` may come first. */
  predicate SentGeq(a: Row, b: Row) {
    LexLeq(b.email.sent, a.email.sent)
  }

  /** Ordering by Sent is total and transitive; rows are tied exactly when
      their Sent values are equal. */
  lemma SentOrder()
    ensures TotalPreorder(SentGeq)
    ensures forall a, b :: Tied(SentGeq, a, b) <==> a.email.sent == b.email.sent
  {
    forall a: Row, b: Row ensures SentGeq(a, b) || SentGeq(b, a) {
      LexTotal(a.email.sent, b.email.sent);
    }
    forall a: Row, b: Row, c: Row | Chain(SentGeq, a, b, c) ensures SentGeq(a, c) {
      LexTrans(c.email.sent, b.email.sent, a.email.sent);
    }
    forall a: Row, b: Row ensures Tied(SentGeq, a, b) <==> a.email.sent == b.email.sent {
      if Tied(SentGeq, a, b) {
        LexAntisym(a.email.sent, b.email.sent);
      }
      LexReflexive(a.email.sent);
    }
  }

  lemma {:induction false} LexReflexive(a: string)
    ensures LexLeq(a, a)
    decreases |a|
  {
    if |a| > 0 {
      LexReflexive(a[1..]);
    }
  }

  /** The rows written out: every e-mail found, newest Sent first, e-mails with
      the same Sent in document order. */
  function Script(docs: seq<Document>, normalize: string -> Option<string>): (r: seq<Row>)
    ensures SortedDesc(r, SentGeq)
    ensures multiset(r) == multiset(Collect(docs, normalize))
    ensures forall k :: 0 <= k < |r| ==> RowComplete(r[k])
  {
    SentOrder();
    SortDescSorted(Collect(docs, normalize), SentGeq);
    var r := SortDesc(Collect(docs, normalize), SentGeq);
    SubMultisetAll(r, Collect(docs, normalize), RowComplete);
    r
  }

  /** E-mails with equal Sent values are written in the order their documents
      were read. */
  lemma ScriptStable(docs: seq<Document>, normalize: string -> Option<string>, y: Row)
    ensures Filter(Script(docs, normalize), TiedTo(SentGeq, y))
         == Filter(Collect(docs, normalize), TiedTo(SentGeq, y))
  {
    SentOrder();
    SortStable(Collect(docs, normalize), y, SentGeq);
  }

  /** The document loop as written: the e-mails are sorted inside the loop, so
      the sorted list exists only once the loop body has run at least once. */
  function LoopAsWritten(docs: seq<Document>, emails: seq<Row>, sorted: Option<seq<Row>>,
                         normalize: string -> Option<string>): (r: Option<seq<Row>>)
    ensures |docs| == 0 ==> r == sorted
    ensures |docs| > 0 ==> r.Some?
    decreases |docs|
  {
    if |docs| == 0 then sorted
    else
      var more := emails + Extracted(docs[0], normalize);
      LoopAsWritten(docs[1..], more, Some(SortDesc(more, SentGeq)), normalize)
  }

  /** The script's result as written; `None` is the unbound name that the final
      loop then reads. */
  function ScriptAsWritten(docs: seq<Document>, normalize: string -> Option<string>): (r: Option<seq<Row>>)
    ensures r.None? <==> |docs| == 0
  {
    LoopAsWritten(docs, [], None, normalize)
  }

  /** With no documents the sorted list is never assigned. */
  lemma NoDocumentsUnbound(normalize: string -> Option<string>)
    ensures ScriptAsWritten([], normalize).None?
  {
  }

  /** With at least one document the loop leaves the sorted list of everything
      collected. */
  lemma {:induction false} LoopAgrees(docs: seq<Document>, emails: seq<Row>, sorted: Option<seq<Row>>,
                                      normalize: string -> Option<string>)
    requires |docs| > 0
    ensures LoopAsWritten(docs, emails, sorted, normalize)
         == Some(SortDesc(emails + Collect(docs, normalize), SentGeq))
    decreases |docs|
  {
    var more := emails + Extracted(docs[0], normalize);
    AppendAssoc(emails, Extracted(docs[0], normalize), Collect(docs[1..], normalize));
    if |docs| > 1 {
      LoopAgrees(docs[1..], more, Some(SortDesc(more, SentGeq)), normalize);
    } else {
      assert more == emails + Collect(docs, normalize);
    }
  }

  /** Where the script as written produces rows, they are the corrected
      script's rows. */
  lemma ScriptAgrees(docs: seq<Document>, normalize: string -> Option<string>)
    requires |docs| > 0
    ensures ScriptAsWritten(docs, normalize) == Some(Script(docs, normalize))
  {
    LoopAgrees(docs, [], None, normalize);
    assert [] + Collect(docs, normalize) == Collect(docs, normalize);
  }

  /** The six columns the script writes, in order. */
  function RowFields(row: Row): (r: seq<string>)
    ensures |r| == 6 && r[0] == row.file && r[5] == row.email.content
  {
    [row.file, row.email.from, row.email.to, row.email.sent, row.email.subject, row.email.content]
  }

  /** A row written with every field quoted is one line that reads back,
      under the search endpoint's reader, as its six columns trimmed: one
      column short of a record. Content keeps the space the scan puts before
      every line of it, so the columns need not be trimmed already. The writer
      ends every row with `\r\n`, so the reader, splitting at `\n`, sees the
      line with a `\r` after it, and that `\r` is trimmed off the last
      column. */
  lemma WrittenRowNotRead(row: Row)
    requires forall k :: 0 <= k < 6 ==> Csv.QuoteFree(RowFields(row)[k]) && '\n' !in RowFields(row)[k]
    ensures '\n' !in Csv.EncodeLine(RowFields(row), true) + "\r"
    ensures Csv.SplitFields(Csv.EncodeLine(RowFields(row), true)) == Csv.TrimAll(RowFields(row))
    ensures Csv.SplitFields(Csv.EncodeLine(RowFields(row), true) + "\r") == Csv.TrimAll(RowFields(row))
    ensures Csv.ParseRecord(Csv.SplitFields(Csv.EncodeLine(RowFields(row), true) + "\r")).None?
  {
    var fs := RowFields(row);
    var line := Csv.EncodeLine(fs, true);
    Csv.SplitQuotedLine(fs);
    var es := seq(|fs|, i requires 0 <= i < |fs| => Csv.Encode(fs[i], true));
    forall k | 0 <= k < |es| ensures '\n' !in es[k] {
      assert es[k] == ['"'] + fs[k] + ['"'];
    }
    Csv.JoinNoSep(es, ',', '\n');
    var st := Csv.ScanFrom(Csv.Start, line);
    Csv.ScanSnoc(Csv.Start, line, '\r');
    TrimSnocSpace(st.current, '\r');
  }
}
