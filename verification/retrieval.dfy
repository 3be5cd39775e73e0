/** The search endpoint after the knowledge base is parsed: the sender and date
    filters, the chronological answer to a short query, the lexical score of a
    record against the search terms, and the ranking of scored records. */
module Retrieval {
  import opened Seqs
  import opened Text
  import opened Sorting
  import opened Csv

  /** The optional filters of a request; an absent filter is `None`. */
  datatype Filters = Filters(sender: Option<string>, dateStart: Option<string>, dateEnd: Option<string>)

  /** A record with the score it was answered with. */
  datatype Scored = Scored(record: EmailRecord, score: int)

  /** How the answer was produced; a semantic answer reports its search terms. */
  datatype Mode = Chronological | Semantic(expandedTerms: seq<string>)

  datatype Answer = Answer(results: seq<Scored>, mode: Mode)

  /** A JavaScript string option is truthy when present and non-empty. */
  predicate Truthy(o: Option<string>) {
    o.Some? && o.value != ""
  }

  predicate SenderActive(f: Filters) {
    Truthy(f.sender) && f.sender.value != "all"
  }

  /** `new Date(a) >= new Date(b)`: `None` stands for an invalid date, and every
      comparison with an invalid date is false. */
  predicate NotBefore(parse: string -> Option<int>, a: string, b: string) {
    parse(a).Some? && parse(b).Some? && parse(a).value >= parse(b).value
  }

  predicate FromMatches(needle: string, r: EmailRecord) {
    Contains(Lower(r.from), Lower(needle))
  }

  function FromContains(needle: string): EmailRecord -> bool {
    r => FromMatches(needle, r)
  }

  function SentFrom(parse: string -> Option<int>, start: string): EmailRecord -> bool {
    (r: EmailRecord) => NotBefore(parse, r.sent, start)
  }

  function SentUntil(parse: string -> Option<int>, end: string): EmailRecord -> bool {
    (r: EmailRecord) => NotBefore(parse, end, r.sent)
  }

  /** The sender filter: kept are the records whose lower-cased sender contains
      the lower-cased filter value, unless the value is empty or `all`. */
  function SenderFilter(recs: seq<EmailRecord>, f: Filters): (r: seq<EmailRecord>)
    ensures multiset(r) <= multiset(recs)
    ensures !SenderActive(f) ==> r == recs
  {
    if SenderActive(f) then
      FilterSubMultiset(recs, FromContains(f.sender.value));
      Filter(recs, FromContains(f.sender.value))
    else recs
  }

  function StartFilter(recs: seq<EmailRecord>, f: Filters, parse: string -> Option<int>): (r: seq<EmailRecord>)
    ensures multiset(r) <= multiset(recs)
    ensures !Truthy(f.dateStart) ==> r == recs
  {
    if Truthy(f.dateStart) then
      FilterSubMultiset(recs, SentFrom(parse, f.dateStart.value));
      Filter(recs, SentFrom(parse, f.dateStart.value))
    else recs
  }

  function EndFilter(recs: seq<EmailRecord>, f: Filters, parse: string -> Option<int>): (r: seq<EmailRecord>)
    ensures multiset(r) <= multiset(recs)
    ensures !Truthy(f.dateEnd) ==> r == recs
  {
    if Truthy(f.dateEnd) then
      FilterSubMultiset(recs, SentUntil(parse, f.dateEnd.value));
      Filter(recs, SentUntil(parse, f.dateEnd.value))
    else recs
  }

  /** The three filters in the order the endpoint applies them. */
  function ApplyFilters(recs: seq<EmailRecord>, f: Filters, parse: string -> Option<int>): (r: seq<EmailRecord>)
    ensures multiset(r) <= multiset(recs)
  {
    EndFilter(StartFilter(SenderFilter(recs, f), f, parse), f, parse)
  }

  /** What a record must satisfy to pass every active filter, stated at once. */
  predicate Admits(f: Filters, parse: string -> Option<int>, r: EmailRecord) {
    && (SenderActive(f) ==> FromMatches(f.sender.value, r))
    && (Truthy(f.dateStart) ==> NotBefore(parse, r.sent, f.dateStart.value))
    && (Truthy(f.dateEnd) ==> NotBefore(parse, f.dateEnd.value, r.sent))
  }

  function AdmittedBy(f: Filters, parse: string -> Option<int>): EmailRecord -> bool {
    r => Admits(f, parse, r)
  }

  function SenderOk(f: Filters): EmailRecord -> bool {
    r => SenderActive(f) ==> FromMatches(f.sender.value, r)
  }

  function StartOk(f: Filters, parse: string -> Option<int>): EmailRecord -> bool {
    (r: EmailRecord) => Truthy(f.dateStart) ==> NotBefore(parse, r.sent, f.dateStart.value)
  }

  function EndOk(f: Filters, parse: string -> Option<int>): EmailRecord -> bool {
    (r: EmailRecord) => Truthy(f.dateEnd) ==> NotBefore(parse, f.dateEnd.value, r.sent)
  }

  lemma SenderStep(recs: seq<EmailRecord>, f: Filters)
    ensures SenderFilter(recs, f) == Filter(recs, SenderOk(f))
  {
    if SenderActive(f) {
      FilterExt(recs, FromContains(f.sender.value), SenderOk(f));
    } else {
      FilterAll(recs, SenderOk(f));
    }
  }

  lemma StartStep(recs: seq<EmailRecord>, f: Filters, parse: string -> Option<int>)
    ensures StartFilter(recs, f, parse) == Filter(recs, StartOk(f, parse))
  {
    if Truthy(f.dateStart) {
      FilterExt(recs, SentFrom(parse, f.dateStart.value), StartOk(f, parse));
    } else {
      FilterAll(recs, StartOk(f, parse));
    }
  }

  lemma EndStep(recs: seq<EmailRecord>, f: Filters, parse: string -> Option<int>)
    ensures EndFilter(recs, f, parse) == Filter(recs, EndOk(f, parse))
  {
    if Truthy(f.dateEnd) {
      FilterExt(recs, SentUntil(parse, f.dateEnd.value), EndOk(f, parse));
    } else {
      FilterAll(recs, EndOk(f, parse));
    }
  }

  /** The filter chain keeps, in their order, exactly the records every active
      filter admits; an unparseable date is excluded by any active bound. */
  lemma FiltersSpec(recs: seq<EmailRecord>, f: Filters, parse: string -> Option<int>)
    ensures ApplyFilters(recs, f, parse) == Filter(recs, AdmittedBy(f, parse))
  {
    var s1 := SenderFilter(recs, f);
    var s2 := StartFilter(s1, f, parse);
    SenderStep(recs, f);
    StartStep(s1, f, parse);
    EndStep(s2, f, parse);
    FilterChain(recs, SenderOk(f), StartOk(f, parse), EndOk(f, parse), AdmittedBy(f, parse));
  }

  /** The answer to an absent or too short query: the first fifty filtered
      records, in their order, each with score 1. */
  function ChronologicalAnswer(recs: seq<EmailRecord>): (r: seq<Scored>)
    ensures |r| == if |recs| < 50 then |recs| else 50
    ensures forall k :: 0 <= k < |r| ==> r[k] == Scored(recs[k], 1)
  {
    var firsts := Take(recs, 50);
    seq(|firsts|, i requires 0 <= i < |firsts| => Scored(firsts[i], 1))
  }

  /** The lower-cased fields a record is searched in. */
  datatype Haystack = Haystack(content: string, subject: string, from: string, to: string)

  function HaystackOf(r: EmailRecord): Haystack {
    Haystack(Lower(r.content), Lower(r.subject), Lower(r.from), Lower(r.to))
  }

  /** Content, subject, sender and recipient joined by single spaces. */
  function FullText(h: Haystack): string {
    h.content + " " + h.subject + " " + h.from + " " + h.to
  }

  /** A word scores when it has at least three characters and occurs in some field. */
  predicate WordHit(h: Haystack, w: string) {
    |w| >= 3 && (Contains(h.content, w) || Contains(h.subject, w) || Contains(h.from, w) || Contains(h.to, w))
  }

  /** Points for one word: 2 for the content, 3 for the subject, 2 for the sender
      and 2 for the recipient, nothing for a word of fewer than three characters. */
  function WordPoints(h: Haystack, w: string): (n: nat)
    ensures n <= 9
    ensures n > 0 <==> WordHit(h, w)
  {
    if |w| < 3 then 0
    else
      (if Contains(h.content, w) then 2 else 0)
      + (if Contains(h.subject, w) then 3 else 0)
      + (if Contains(h.from, w) then 2 else 0)
      + (if Contains(h.to, w) then 2 else 0)
  }

  function WordsPoints(h: Haystack, ws: seq<string>): (n: nat)
    ensures n <= 9 * |ws|
    decreases |ws|
  {
    if |ws| == 0 then 0 else WordPoints(h, ws[0]) + WordsPoints(h, ws[1..])
  }

  /** The words of a term: split at whitespace. Empty pieces, which the source's
      split at whitespace runs would not produce, score nothing. */
  function Words(term: string): seq<string> {
    SplitWhere(term, IsSpace)
  }

  /** A term has at least one word, no word holds whitespace, and a term
      without whitespace is its own single word. */
  lemma WordsOfTerm(term: string)
    ensures |Words(term)| >= 1
    ensures forall k, i :: 0 <= k < |Words(term)| && 0 <= i < |Words(term)[k]| ==> !IsSpace(Words(term)[k][i])
    ensures (forall i :: 0 <= i < |term| ==> !IsSpace(term[i])) ==> Words(term) == [term]
  {
    if forall i :: 0 <= i < |term| ==> !IsSpace(term[i]) {
      SplitPlain(term, IsSpace);
    }
  }

  /** Points for one term: 10 for the whole term in the joined text when it is
      the query itself, 5 when it is another term, plus its words' points. */
  function TermPoints(h: Haystack, term: string, query: string): (n: nat)
    ensures n <= 10 + 9 * |Words(term)|
  {
    (if Contains(FullText(h), term) then (if term == query then 10 else 5) else 0)
    + WordsPoints(h, Words(term))
  }

  function Score(h: Haystack, terms: seq<string>, query: string): (n: nat)
    decreases |terms|
  {
    if |terms| == 0 then 0 else TermPoints(h, terms[0], query) + Score(h, terms[1..], query)
  }

  /** Every term is scored on its own and the points add up: the score for
      two runs of terms is the sum of their scores. */
  lemma {:induction false} ScoreAppend(h: Haystack, a: seq<string>, b: seq<string>, query: string)
    ensures Score(h, a + b, query) == Score(h, a, query) + Score(h, b, query)
    decreases |a|
  {
    if |a| == 0 {
      assert a + b == b;
    } else {
      assert (a + b)[0] == a[0] && (a + b)[1..] == a[1..] + b;
      ScoreAppend(h, a[1..], b, query);
    }
  }

  /** Some term occurs whole in the joined text, or one of its words hits a field. */
  predicate TermHit(h: Haystack, term: string) {
    Contains(FullText(h), term) || exists k :: 0 <= k < |Words(term)| && WordHit(h, Words(term)[k])
  }

  lemma {:induction false} WordsPointsPositive(h: Haystack, ws: seq<string>)
    ensures WordsPoints(h, ws) > 0 <==> exists k :: 0 <= k < |ws| && WordHit(h, ws[k])
    decreases |ws|
  {
    if |ws| > 0 {
      WordsPointsPositive(h, ws[1..]);
      if exists k :: 0 <= k < |ws[1..]| && WordHit(h, ws[1..][k]) {
        var k :| 0 <= k < |ws[1..]| && WordHit(h, ws[1..][k]);
        assert WordHit(h, ws[k + 1]);
      }
      if exists k :: 0 <= k < |ws| && WordHit(h, ws[k]) {
        var k :| 0 <= k < |ws| && WordHit(h, ws[k]);
        if k > 0 {
          assert WordHit(h, ws[1..][k - 1]);
        }
      }
    }
  }

  /** A record scores above zero exactly when some term hits it. */
  lemma {:induction false} ScorePositive(h: Haystack, terms: seq<string>, query: string)
    ensures Score(h, terms, query) > 0 <==> exists i :: 0 <= i < |terms| && TermHit(h, terms[i])
    decreases |terms|
  {
    if |terms| > 0 {
      ScorePositive(h, terms[1..], query);
      WordsPointsPositive(h, Words(terms[0]));
      if exists i :: 0 <= i < |terms[1..]| && TermHit(h, terms[1..][i]) {
        var i :| 0 <= i < |terms[1..]| && TermHit(h, terms[1..][i]);
        assert TermHit(h, terms[i + 1]);
      }
      if exists i :: 0 <= i < |terms| && TermHit(h, terms[i]) {
        var i :| 0 <= i < |terms| && TermHit(h, terms[i]);
        if i > 0 {
          assert TermHit(h, terms[1..][i - 1]);
        }
      }
    }
  }

  /** The search terms: the lower-cased query, then the lower-cased expansions. */
  function SearchTerms(query: string, expanded: seq<string>): (r: seq<string>)
    ensures |r| == |expanded| + 1 && r[0] == Lower(query)
    ensures forall i :: 0 <= i < |expanded| ==> r[i + 1] == Lower(expanded[i])
  {
    [Lower(query)] + seq(|expanded|, i requires 0 <= i < |expanded| => Lower(expanded[i]))
  }

  /** A record holding the query as a phrase scores at least 10 on its own. */
  lemma QueryPhraseBonus(r: EmailRecord, query: string, expanded: seq<string>)
    requires Contains(FullText(HaystackOf(r)), Lower(query))
    ensures Score(HaystackOf(r), SearchTerms(query, expanded), Lower(query)) >= 10
  {
    var terms := SearchTerms(query, expanded);
    assert Score(HaystackOf(r), terms, Lower(query))
        == TermPoints(HaystackOf(r), terms[0], Lower(query)) + Score(HaystackOf(r), terms[1..], Lower(query));
  }

  /** Every record of the filtered set, with its score. */
  function ScoreAll(recs: seq<EmailRecord>, terms: seq<string>, query: string): (r: seq<Scored>)
    ensures |r| == |recs|
    ensures forall k :: 0 <= k < |r| ==> r[k].record == recs[k]
  {
    seq(|recs|, i requires 0 <= i < |recs| => Scored(recs[i], Score(HaystackOf(recs[i]), terms, query)))
  }

  predicate Positive(s: Scored) {
    s.score > 0
  }

  predicate ScoreGeq(a: Scored, b: Scored) {
    a.score >= b.score
  }

  lemma ScoreGeqTotal()
    ensures TotalPreorder(ScoreGeq)
  {
    assert forall a, b, c :: Chain(ScoreGeq, a, b, c) ==> ScoreGeq(a, c);
  }

  /** Keeps the records that scored, orders them by score with ties in their
      original order, and keeps the first thirty. */
  function Rank(scored: seq<Scored>): (r: seq<Scored>)
    ensures |r| <= 30
    ensures forall k :: 0 <= k < |r| ==> Positive(r[k])
    ensures SortedDesc(r, ScoreGeq)
    ensures multiset(r) <= multiset(scored)
  {
    var positives := Filter(scored, Positive);
    ScoreGeqTotal();
    SortDescSorted(positives, ScoreGeq);
    PositivesSorted(positives);
    FilterSubMultiset(scored, Positive);
    Take(SortDesc(positives, ScoreGeq), 30)
  }

  lemma PositivesSorted(positives: seq<Scored>)
    requires forall k :: 0 <= k < |positives| ==> Positive(positives[k])
    ensures forall k :: 0 <= k < |Take(SortDesc(positives, ScoreGeq), 30)| ==>
      Positive(Take(SortDesc(positives, ScoreGeq), 30)[k])
    ensures multiset(Take(SortDesc(positives, ScoreGeq), 30)) <= multiset(positives)
  {
    var sorted := SortDesc(positives, ScoreGeq);
    var r := Take(sorted, 30);
    forall k | 0 <= k < |r| ensures Positive(r[k]) {
      assert r[k] == sorted[k];
      assert sorted[k] in multiset(positives);
    }
    PrefixMultiset(sorted, |r|);
  }

  lemma PrefixMultiset<T>(s: seq<T>, n: nat)
    requires n <= |s|
    ensures multiset(s[..n]) <= multiset(s)
  {
    assert s == s[..n] + s[n..];
  }

  /** As many results as there are scoring records, up to thirty. */
  lemma RankCount(scored: seq<Scored>)
    ensures |Rank(scored)| == if |Filter(scored, Positive)| < 30 then |Filter(scored, Positive)| else 30
  {
  }

  /** Records tied on score keep their relative order: the tied ones among the
      results are the first of the tied ones among the scoring records. */
  lemma RankStable(scored: seq<Scored>, y: Scored)
    ensures Filter(Rank(scored), TiedTo(ScoreGeq, y)) <= Filter(Filter(scored, Positive), TiedTo(ScoreGeq, y))
  {
    var positives := Filter(scored, Positive);
    ScoreGeqTotal();
    SortStable(positives, y, ScoreGeq);
    FilterTake(SortDesc(positives, ScoreGeq), 30, TiedTo(ScoreGeq, y));
  }

  /** A scoring record left out of the thirty scores no higher than any result. */
  lemma RankTop(scored: seq<Scored>, e: Scored, k: nat)
    requires e in multiset(Filter(scored, Positive)) - multiset(Rank(scored))
    requires k < |Rank(scored)|
    ensures Rank(scored)[k].score >= e.score
  {
    var positives := Filter(scored, Positive);
    var sorted := SortDesc(positives, ScoreGeq);
    var r := Rank(scored);
    var n := |r|;
    ScoreGeqTotal();
    SortDescSorted(positives, ScoreGeq);
    TakeSplit(sorted, 30);
    assert multiset(sorted) == multiset(r) + multiset(sorted[n..]);
    assert e in multiset(sorted[n..]);
    var j :| 0 <= j < |sorted[n..]| && sorted[n..][j] == e;
    assert sorted[n + j] == e;
    assert r[k] == sorted[k];
  }

  /** The endpoint once the records are parsed: filter, then answer a short
      query chronologically and any other query by score. */
  function Search(recs: seq<EmailRecord>, f: Filters, parse: string -> Option<int>,
                  query: string, expanded: seq<string>): (a: Answer)
    ensures a.mode.Chronological? <==> |Trim(query)| < 2
    ensures a.mode.Chronological? ==> a.results == ChronologicalAnswer(ApplyFilters(recs, f, parse))
    ensures a.mode.Semantic? ==>
      && a.mode.expandedTerms == SearchTerms(query, expanded)
      && |a.results| <= 30
      && SortedDesc(a.results, ScoreGeq)
      && forall k :: 0 <= k < |a.results| ==> a.results[k].score > 0
  {
    var filtered := ApplyFilters(recs, f, parse);
    if |Trim(query)| < 2 then Answer(ChronologicalAnswer(filtered), Chronological)
    else
      var terms := SearchTerms(query, expanded);
      Answer(Rank(ScoreAll(filtered, terms, Lower(query))), Semantic(terms))
  }

  /** Every semantic result is a filtered record with the score it earns. */
  lemma SearchResultsScored(recs: seq<EmailRecord>, f: Filters, parse: string -> Option<int>,
                            query: string, expanded: seq<string>, k: nat)
    requires |Trim(query)| >= 2
    requires k < |Search(recs, f, parse, query, expanded).results|
    ensures var s := Search(recs, f, parse, query, expanded).results[k];
      && s.record in ApplyFilters(recs, f, parse)
      && s.score == Score(HaystackOf(s.record), SearchTerms(query, expanded), Lower(query))
  {
    var filtered := ApplyFilters(recs, f, parse);
    var scored := ScoreAll(filtered, SearchTerms(query, expanded), Lower(query));
    var r := Rank(scored);
    assert r[k] in multiset(r);
    assert r[k] in multiset(scored);
    var i :| 0 <= i < |scored| && scored[i] == r[k];
    assert scored[i].record == filtered[i];
  }
}
