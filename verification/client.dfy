/** The browser page's search: the clean-up applied to a message body that has
    no cleaned copy, the text each message is searched and shown by, and the
    page state that `handleSearch`, `clear` and typing in the search box change. */
module ClientSearch {
  import opened Seqs
  import opened Text
  import opened Matching

  const XmlOpen := "<?xml"
  const XmlClose := "</plist>"

  /** The lazy pattern `<?xml[\s\S]*?</plist>` at the front of `s`: the opening
      text, then anything up to and including the first closing tag after it. */
  function XmlBlockAt(s: string): (r: Option<nat>)
    ensures r.Some? ==> |XmlOpen| + |XmlClose| <= r.value <= |s|
    ensures r.Some? ==> && StartsWith(s, XmlOpen) && OccursAt(s, XmlClose, r.value - 8)
                        && forall j :: 5 <= j < r.value - 8 ==> !OccursAt(s, XmlClose, j)
    ensures r.None? ==> !StartsWith(s, XmlOpen) || forall j :: 5 <= j ==> !OccursAt(s, XmlClose, j)
  {
    if StartsWith(s, XmlOpen) then
      match IndexOf(s[5..], XmlClose)
      case Some(k) =>
        OccursShift(s, XmlClose, 5, k);
        assert forall j :: 5 <= j < 5 + k ==> !OccursAt(s, XmlClose, j) by {
          forall j | 5 <= j < 5 + k ensures !OccursAt(s, XmlClose, j) {
            OccursShift(s, XmlClose, 5, j - 5);
          }
        }
        Some(5 + k + 8)
      case None =>
        assert forall j :: 5 <= j ==> !OccursAt(s, XmlClose, j) by {
          forall j | 5 <= j ensures !OccursAt(s, XmlClose, j) {
            OccursShift(s, XmlClose, 5, j - 5);
          }
        }
        None
    else None
  }

  /** A block made of the opening text, `mid` and the closing tag is matched
      whole, provided the closing tag does not occur earlier. */
  lemma XmlBlockMatched(mid: string, u: string)
    requires forall j :: 0 <= j < |mid| ==> !OccursAt(mid + XmlClose + u, XmlClose, j)
    ensures XmlBlockAt(XmlOpen + mid + XmlClose + u) == Some(|XmlOpen + mid + XmlClose|)
  {
    var s := XmlOpen + mid + XmlClose + u;
    assert s[..5] == XmlOpen;
    assert s[5..] == mid + XmlClose + u;
    assert (mid + XmlClose + u)[|mid|..|mid| + 8] == XmlClose;
    assert OccursAt(mid + XmlClose + u, XmlClose, |mid|);
  }

  /** The pattern `\d+\s+EFTA_R1_\d+\s+EFTA\d+`. Every repetition but the last
      is followed by a character outside its class, and the greedy final run
      takes every digit there is, so the backtracking regular expression can
      only match each run whole, as the possessive matcher does. */
  const EftaPattern: seq<Item> :=
    [Many(IsDigit), Many(IsSpace), Lit("EFTA_R1_"), Many(IsDigit), Many(IsSpace), Lit("EFTA"), Many(IsDigit)]

  /** The metadata run at the front of `s`, if there is one. */
  function EftaAt(s: string): (r: Option<nat>)
    ensures r.Some? ==> 0 < r.value <= |s|
  {
    MatchItems(s, EftaPattern)
  }

  /** A metadata run that text `t` without any match leads up to is deleted,
      and the text before it is kept. */
  lemma EftaRemoved(t: string, parts: seq<string>, u: string)
    requires Spells(parts, EftaPattern, u)
    requires forall j :: 0 <= j < |t| ==> EftaAt((t + Concat(parts) + u)[j..]).None?
    ensures RemoveMatches(t + Concat(parts) + u, EftaAt) == t + RemoveMatches(u, EftaAt)
  {
    ItemsComplete(parts, EftaPattern, u);
    RemoveOne(t, Concat(parts), u, EftaAt);
  }

  /** Likewise an XML block up to the first closing tag after its opening. */
  lemma XmlRemoved(t: string, mid: string, u: string)
    requires forall j :: 0 <= j < |mid| ==> !OccursAt(mid + XmlClose + u, XmlClose, j)
    requires forall j :: 0 <= j < |t| ==> XmlBlockAt((t + (XmlOpen + mid + XmlClose) + u)[j..]).None?
    ensures RemoveMatches(t + (XmlOpen + mid + XmlClose) + u, XmlBlockAt) == t + RemoveMatches(u, XmlBlockAt)
  {
    XmlBlockMatched(mid, u);
    assert XmlOpen + mid + XmlClose + u == (XmlOpen + mid + XmlClose) + u;
    RemoveOne(t, XmlOpen + mid + XmlClose, u, XmlBlockAt);
  }

  /** `cleanMessageContent`: nothing for an empty body; otherwise the XML blocks
      and then the metadata runs are deleted, every whitespace run becomes one
      space and the ends are trimmed. */
  function CleanMessageContent(content: string): (r: string)
    ensures content == "" ==> r == ""
    ensures Normalized(r)
  {
    if content == "" then ""
    else
      var noXml := RemoveMatches(content, XmlBlockAt);
      var noMeta := RemoveMatches(noXml, EftaAt);
      CollapseTrimNormalized(noMeta);
      Trim(Collapse(noMeta))
  }

  /** Text already in normalised form, with no XML block or metadata run in it,
      comes out unchanged. */
  lemma CleanFixed(s: string)
    requires Normalized(s) && NoMatch(s, XmlBlockAt) && NoMatch(s, EftaAt)
    ensures CleanMessageContent(s) == s
  {
    if s != "" {
      NoMatchUnchanged(s, XmlBlockAt);
      NoMatchUnchanged(s, EftaAt);
      CollapseFixed(s);
      TrimOfTrimmed(s);
    }
  }

  /** Cleaning never drops a character other than by deleting a match or
      whitespace: text with no match keeps its visible characters in order. */
  lemma CleanKeepsVisible(s: string)
    requires NoMatch(s, XmlBlockAt) && NoMatch(s, EftaAt)
    ensures Filter(CleanMessageContent(s), NotSpace) == Filter(s, NotSpace)
  {
    if s != "" {
      NoMatchUnchanged(s, XmlBlockAt);
      NoMatchUnchanged(s, EftaAt);
      TrimKeepsNonSpace(Collapse(s));
      CollapseKeepsNonSpace(s);
    }
  }

  /** No XML block starts at a character other than `<`. */
  lemma NoXmlAt(s: string)
    requires |s| > 0 && s[0] != '<'
    ensures XmlBlockAt(s).None?
  {
  }

  /** Text without `<` holds no XML block. */
  lemma NoXmlIn(s: string)
    requires '<' !in s
    ensures RemoveMatches(s, XmlBlockAt) == s
  {
    forall j | 0 <= j < |s| ensures XmlBlockAt(s[j..]).None? {
      assert s[j..][0] == s[j];
      NoXmlAt(s[j..]);
    }
    NoMatchUnchanged(s, XmlBlockAt);
  }

  /** No metadata run starts at a character other than a digit. */
  lemma NoEftaAt(s: string)
    requires |s| > 0 && !IsDigit(s[0])
    ensures EftaAt(s).None?
  {
    assert Run(s, IsDigit) == 0;
  }

  /** What is left once the matches are gone is two pieces of normalised text
      with two spaces between them: the cleaned body is the two pieces joined
      by one space. */
  lemma CleanLeavesGap(content: string, a: string, b: string)
    requires Normalized(a) && Normalized(b) && |a| > 0 && |b| > 0
    requires content != ""
    requires RemoveMatches(RemoveMatches(content, XmlBlockAt), EftaAt) == a + "  " + b
    ensures CleanMessageContent(content) == a + " " + b
  {
    assert AllSpace("  ");
    CollapseGap(a, "  ", b);
  }

  /** No XML block starts within text without `<`, whatever follows it. */
  lemma NoXmlBefore(t: string, m: string, u: string)
    requires '<' !in t
    ensures forall j :: 0 <= j < |t| ==> XmlBlockAt((t + m + u)[j..]).None?
  {
    forall j | 0 <= j < |t| ensures XmlBlockAt((t + m + u)[j..]).None? {
      assert (t + m + u)[j..][0] == t[j];
      NoXmlAt((t + m + u)[j..]);
    }
  }

  /** The XML block is deleted and the spaces around it stay. */
  lemma XmlBlockDeleted(a: string, mid: string, b: string)
    requires '<' !in a && '<' !in b
    requires forall j :: 0 <= j < |mid| ==> !OccursAt(mid + XmlClose + " " + b, XmlClose, j)
    ensures RemoveMatches(a + " " + XmlOpen + mid + XmlClose + " " + b, XmlBlockAt) == a + "  " + b
  {
    var t := a + " ";
    var u := " " + b;
    var block := XmlOpen + mid + XmlClose;
    assert a + " " + XmlOpen + mid + XmlClose + " " + b == t + block + u;
    assert mid + XmlClose + " " + b == mid + XmlClose + u;
    NoXmlBefore(t, block, u);
    XmlRemoved(t, mid, u);
    NoXmlIn(u);
    SpacesMeet(a, b);
  }

  /** An XML block between two pieces of normalised text is deleted with the
      space on one side of it, provided the text holds no other `<`, the block
      ends at its first closing tag and the text it leaves holds no metadata
      run. */
  lemma CleanRemovesXml(a: string, mid: string, b: string)
    requires Normalized(a) && Normalized(b) && |a| > 0 && |b| > 0
    requires '<' !in a && '<' !in b
    requires forall j :: 0 <= j < |mid| ==> !OccursAt(mid + XmlClose + " " + b, XmlClose, j)
    requires NoMatch(a + "  " + b, EftaAt)
    ensures CleanMessageContent(a + " " + XmlOpen + mid + XmlClose + " " + b) == a + " " + b
  {
    XmlBlockDeleted(a, mid, b);
    NoMatchUnchanged(a + "  " + b, EftaAt);
    CleanLeavesGap(a + " " + XmlOpen + mid + XmlClose + " " + b, a, b);
  }

  /** The metadata run is deleted and the spaces around it stay. */
  lemma EftaRunDeleted(a: string, parts: seq<string>, b: string)
    requires Spells(parts, EftaPattern, " " + b)
    requires forall j :: 0 <= j < |a| ==> EftaAt((a + " " + Concat(parts) + " " + b)[j..]).None?
    requires NoMatch(b, EftaAt)
    ensures RemoveMatches(a + " " + Concat(parts) + " " + b, EftaAt) == a + "  " + b
  {
    var t := a + " ";
    var u := " " + b;
    var s := t + Concat(parts) + u;
    assert a + " " + Concat(parts) + " " + b == s;
    forall j | 0 <= j < |t| ensures EftaAt(s[j..]).None? {
      if j == |a| {
        assert s[j..][0] == ' ';
        NoEftaAt(s[j..]);
      }
    }
    EftaRemoved(t, parts, u);
    forall j | 0 <= j < |u| ensures EftaAt(u[j..]).None? {
      if j == 0 {
        NoEftaAt(u);
      } else {
        assert u[j..] == b[j - 1..];
      }
    }
    NoMatchUnchanged(u, EftaAt);
    SpacesMeet(a, b);
  }

  /** A metadata run holds no `<`, so around text without one it starts no
      XML block. */
  lemma EftaRunHasNoXml(a: string, parts: seq<string>, b: string)
    requires '<' !in a && '<' !in b
    requires Spells(parts, EftaPattern, " " + b)
    ensures RemoveMatches(a + " " + Concat(parts) + " " + b, XmlBlockAt) == a + " " + Concat(parts) + " " + b
  {
    assert forall k :: 0 <= k < |EftaPattern| ==> Avoids(EftaPattern[k], '<');
    SpelledAvoids(parts, EftaPattern, " " + b, '<');
    NoXmlIn(a + " " + Concat(parts) + " " + b);
  }

  /** A metadata run between two pieces of normalised text is deleted with
      the space on one side of it, provided no run starts before it, none
      follows it and the text holds no `<`. */
  lemma CleanRemovesEfta(a: string, parts: seq<string>, b: string)
    requires Normalized(a) && Normalized(b) && |a| > 0 && |b| > 0
    requires '<' !in a && '<' !in b
    requires Spells(parts, EftaPattern, " " + b)
    requires forall j :: 0 <= j < |a| ==> EftaAt((a + " " + Concat(parts) + " " + b)[j..]).None?
    requires NoMatch(b, EftaAt)
    ensures CleanMessageContent(a + " " + Concat(parts) + " " + b) == a + " " + b
  {
    EftaRunHasNoXml(a, parts, b);
    EftaRunDeleted(a, parts, b);
    CleanLeavesGap(a + " " + Concat(parts) + " " + b, a, b);
  }

  /** A message as the page loads it; the cleaned copy is an optional column. */
  datatype Message = Message(
    fileName: string,
    from: string,
    to: string,
    sent: string,
    subject: string,
    content: string,
    contentCleaned: Option<string>)

  /** `content_cleaned || cleanMessageContent(Content)`. */
  function DisplayContent(m: Message): (r: string)
    ensures m.contentCleaned.Some? && m.contentCleaned.value != "" ==> r == m.contentCleaned.value
    ensures (m.contentCleaned.None? || m.contentCleaned.value == "") ==> r == CleanMessageContent(m.content)
    ensures (m.contentCleaned.None? || m.contentCleaned.value == "") ==> Normalized(r)
  {
    if m.contentCleaned.Some? && m.contentCleaned.value != "" then m.contentCleaned.value
    else CleanMessageContent(m.content)
  }

  /** A message without a cleaned copy is shown by its own body: when the body
      has no XML block or metadata run, every visible character of it is shown,
      in order, and a body already normalised is shown exactly as it is. */
  lemma DisplayFallback(m: Message)
    requires m.contentCleaned.None? || m.contentCleaned.value == ""
    requires NoMatch(m.content, XmlBlockAt) && NoMatch(m.content, EftaAt)
    ensures Filter(DisplayContent(m), NotSpace) == Filter(m.content, NotSpace)
    ensures Normalized(m.content) ==> DisplayContent(m) == m.content
  {
    CleanKeepsVisible(m.content);
    if Normalized(m.content) {
      CleanFixed(m.content);
    }
  }

  /** A loaded message with the text it is shown and searched by. */
  datatype Shown = Shown(msg: Message, displayContent: string)

  /** The page's data once loaded: every message with its display text. */
  function Load(ms: seq<Message>): (r: seq<Shown>)
    ensures |r| == |ms|
    ensures forall k :: 0 <= k < |r| ==> r[k].msg == ms[k] && r[k].displayContent == DisplayContent(ms[k])
  {
    seq(|ms|, i requires 0 <= i < |ms| => Shown(ms[i], DisplayContent(ms[i])))
  }

  /** Case-insensitive search of the display text, the sender and the subject. */
  predicate Matches(term: string, m: Shown) {
    Contains(Lower(m.displayContent), term) || Contains(Lower(m.msg.from), term)
      || Contains(Lower(m.msg.subject), term)
  }

  function MatchesTerm(term: string): Shown -> bool {
    m => Matches(term, m)
  }

  /** The page state the search touches. */
  datatype View = View(query: string, results: seq<Shown>, hasSearched: bool)

  const Initial := View("", [], false)

  /** Typing in the search box. */
  function SetQuery(v: View, q: string): (r: View)
    ensures r.query == q && r.results == v.results && r.hasSearched == v.hasSearched
  {
    v.(query := q)
  }

  /** `handleSearch`: a blank query changes nothing; otherwise the results are the
      loaded messages matching the lower-cased, untrimmed query, in order. */
  function HandleSearch(v: View, messages: seq<Shown>): (r: View)
    ensures Trim(v.query) == "" ==> r == v
    ensures Trim(v.query) != "" ==> r.hasSearched && r.query == v.query
  {
    if Trim(v.query) == "" then v
    else View(v.query, Filter(messages, MatchesTerm(Lower(v.query))), true)
  }

  /** `clear`. */
  function Clear(v: View): (r: View)
    ensures r == Initial
  {
    View("", [], false)
  }

  /** Exactly the loaded messages that match, and nothing else, are the results. */
  lemma SearchResultsExact(v: View, messages: seq<Shown>)
    requires Trim(v.query) != ""
    ensures var r := HandleSearch(v, messages).results;
      && (forall k :: 0 <= k < |r| ==> Matches(Lower(v.query), r[k]) && r[k] in messages)
      && (forall i :: 0 <= i < |messages| && Matches(Lower(v.query), messages[i]) ==> messages[i] in r)
  {
    var p := MatchesTerm(Lower(v.query));
    var r := Filter(messages, p);
    FilterSubMultiset(messages, p);
    forall k | 0 <= k < |r| ensures Matches(Lower(v.query), r[k]) && r[k] in messages {
      assert p(r[k]);
      assert r[k] in multiset(r);
    }
    forall i | 0 <= i < |messages| && Matches(Lower(v.query), messages[i]) ensures messages[i] in r {
      FilterKeeps(messages, p, i);
    }
  }

  /** The results keep the loaded messages' order and multiplicity: a single
      message is a result exactly when it matches, and the results for two
      runs of messages are those of the first followed by those of the second. */
  lemma SearchInOrder(v: View, a: seq<Shown>, b: seq<Shown>, m: Shown)
    requires Trim(v.query) != ""
    ensures HandleSearch(v, [m]).results == if Matches(Lower(v.query), m) then [m] else []
    ensures HandleSearch(v, a + b).results == HandleSearch(v, a).results + HandleSearch(v, b).results
  {
    FilterSingle(m, MatchesTerm(Lower(v.query)));
    FilterAppend(a, b, MatchesTerm(Lower(v.query)));
  }

  /** Results shown only after a search, and only messages that were loaded. */
  ghost predicate Consistent(v: View, messages: seq<Shown>) {
    && (!v.hasSearched ==> v.results == [])
    && multiset(v.results) <= multiset(messages)
  }

  /** Every action keeps the page consistent with the loaded messages. */
  lemma ActionsKeepConsistent(v: View, messages: seq<Shown>, q: string)
    requires Consistent(v, messages)
    ensures Consistent(HandleSearch(v, messages), messages)
    ensures Consistent(Clear(v), messages)
    ensures Consistent(SetQuery(v, q), messages)
  {
    FilterSubMultiset(messages, MatchesTerm(Lower(v.query)));
  }

  /** Searching twice for the same query is searching once. */
  lemma SearchIdempotent(v: View, messages: seq<Shown>)
    ensures HandleSearch(HandleSearch(v, messages), messages) == HandleSearch(v, messages)
  {
  }

  /** The result of a search depends only on the query and the loaded messages,
      not on what was shown before. */
  lemma SearchForgetsResults(v: View, w: View, messages: seq<Shown>)
    requires v.query == w.query && Trim(v.query) != ""
    ensures HandleSearch(v, messages) == HandleSearch(w, messages)
  {
  }
}
