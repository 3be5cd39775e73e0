/** Global regular-expression deletion (`replace(re, '')` with the `g` flag,
    `re.sub(pattern, "", ...)`): the text is scanned left to right, and where a
    match starts it is deleted and scanning resumes after it. A pattern is
    represented by its matcher: the length of the match starting at the front
    of a text, if any. */
module Matching {
  import opened Seqs
  import opened Text

  /** A matcher only ever reports a non-empty match that fits in the text. */
  ghost predicate Matcher(at: string -> Option<nat>) {
    forall s :: at(s).Some? ==> 0 < at(s).value <= |s|
  }

  /** Deletes every match found scanning from the left; matches do not overlap. */
  function RemoveMatches(s: string, at: string -> Option<nat>): (r: string)
    requires Matcher(at)
    ensures |r| <= |s|
    decreases |s|
  {
    if |s| == 0 then ""
    else
      match at(s)
      case Some(n) => RemoveMatches(s[n..], at)
      case None => [s[0]] + RemoveMatches(s[1..], at)
  }

  /** No match starts anywhere in `s`. */
  predicate NoMatch(s: string, at: string -> Option<nat>) {
    forall j :: 0 <= j < |s| ==> at(s[j..]).None?
  }

  /** Text in which no match starts is left as it is. */
  lemma {:induction false} NoMatchUnchanged(s: string, at: string -> Option<nat>)
    requires Matcher(at) && NoMatch(s, at)
    ensures RemoveMatches(s, at) == s
    decreases |s|
  {
    if |s| > 0 {
      assert at(s[0..]).None?;
      assert s[0..] == s;
      forall j | 0 <= j < |s[1..]| ensures at(s[1..][j..]).None? {
        assert s[1..][j..] == s[j + 1..];
      }
      NoMatchUnchanged(s[1..], at);
      HeadTail(s);
    }
  }

  /** A match `m` preceded by text `t` in which no match starts is deleted,
      the text before it is kept, and scanning resumes at `u`. */
  lemma {:induction false} RemoveOne(t: string, m: string, u: string, at: string -> Option<nat>)
    requires Matcher(at)
    requires forall j :: 0 <= j < |t| ==> at((t + m + u)[j..]).None?
    requires at(m + u) == Some(|m|)
    ensures RemoveMatches(t + m + u, at) == t + RemoveMatches(u, at)
    decreases |t|
  {
    var s := t + m + u;
    if |t| == 0 {
      assert s == m + u;
      assert (m + u)[|m|..] == u;
    } else {
      assert s[0..] == s;
      TailAppend(t, m, u);
      forall j | 0 <= j < |t[1..]| ensures at((t[1..] + m + u)[j..]).None? {
        assert (t[1..] + m + u)[j..] == s[j + 1..];
      }
      RemoveOne(t[1..], m, u, at);
      HeadTail(t);
      AppendAssoc([t[0]], t[1..], RemoveMatches(u, at));
    }
  }

  /** One element of a pattern made of greedy repetitions and literals:
      `Many(p)` is one or more characters satisfying `p`, `Lit(t)` is the text `t`. */
  datatype Item = Many(p: char -> bool) | Lit(text: string)

  /** The length the item takes at the front of `s`. A repetition takes the
      whole run: it is possessive. */
  function Front(s: string, item: Item): (r: Option<nat>)
    ensures r.Some? ==> r.value <= |s|
    ensures r.Some? && item.Many? ==> r.value > 0
  {
    match item
    case Many(p) =>
      var n := Run(s, p);
      if n == 0 then None else Some(n)
    case Lit(t) =>
      if StartsWith(s, t) then Some(|t|) else None
  }

  /** The length a pattern takes at the front of `s`, matching its items in turn. */
  function MatchItems(s: string, pat: seq<Item>): (r: Option<nat>)
    ensures r.Some? ==> r.value <= |s|
    ensures r.Some? && |pat| > 0 && pat[0].Many? ==> r.value > 0
    decreases |pat|
  {
    if |pat| == 0 then Some(0)
    else
      match Front(s, pat[0])
      case None => None
      case Some(k) =>
        match MatchItems(s[k..], pat[1..])
        case None => None
        case Some(m) => Some(k + m)
  }

  function Concat(parts: seq<string>): string
    decreases |parts|
  {
    if |parts| == 0 then "" else parts[0] + Concat(parts[1..])
  }

  /** `part` is what `item` stands for, and where `item` repeats a class, the
      text `after` it does not continue the run. */
  predicate Fits(part: string, item: Item, after: string) {
    match item
    case Many(p) =>
      && |part| > 0
      && (forall i :: 0 <= i < |part| ==> p(part[i]))
      && (|after| == 0 || !p(after[0]))
    case Lit(t) => part == t
  }

  /** The text `Concat(parts) + u` spells the pattern, part by part. */
  predicate Spells(parts: seq<string>, pat: seq<Item>, u: string)
    decreases |pat|
  {
    && |parts| == |pat|
    && (|pat| > 0 ==>
         && Fits(parts[0], pat[0], Concat(parts[1..]) + u)
         && Spells(parts[1..], pat[1..], u))
  }

  lemma FrontFits(part: string, item: Item, after: string)
    requires Fits(part, item, after)
    ensures Front(part + after, item) == Some(|part|)
    ensures (part + after)[|part|..] == after
  {
    match item
    case Many(p) => RunExact(part, after, p);
    case Lit(t) => assert (part + after)[..|part|] == part;
  }

  lemma FrontSound(s: string, item: Item, k: nat)
    requires Front(s, item) == Some(k)
    ensures Fits(s[..k], item, s[k..])
  {
  }

  /** Completeness: text that spells the pattern is matched, and the match ends
      where the spelled parts end. */
  lemma {:induction false} ItemsComplete(parts: seq<string>, pat: seq<Item>, u: string)
    requires Spells(parts, pat, u)
    ensures MatchItems(Concat(parts) + u, pat) == Some(|Concat(parts)|)
    decreases |pat|
  {
    if |pat| > 0 {
      var rest := Concat(parts[1..]) + u;
      AppendAssoc(parts[0], Concat(parts[1..]), u);
      FrontFits(parts[0], pat[0], rest);
      ItemsComplete(parts[1..], pat[1..], u);
    }
  }

  /** The character `c` is none of the text the item stands for. */
  predicate Avoids(item: Item, c: char) {
    match item
    case Many(p) => !p(c)
    case Lit(t) => c !in t
  }

  /** A character every item of the pattern avoids does not occur in text
      spelling it. */
  lemma {:induction false} SpelledAvoids(parts: seq<string>, pat: seq<Item>, u: string, c: char)
    requires Spells(parts, pat, u)
    requires forall k :: 0 <= k < |pat| ==> Avoids(pat[k], c)
    ensures c !in Concat(parts)
    decreases |pat|
  {
    if |pat| > 0 {
      assert Avoids(pat[0], c);
      assert forall k :: 0 <= k < |pat[1..]| ==> pat[1..][k] == pat[k + 1];
      SpelledAvoids(parts[1..], pat[1..], u, c);
    }
  }

  /** Soundness: a match of length `n` is the concatenation of parts that spell
      the pattern, followed by the rest of the text. */
  lemma {:induction false} ItemsSound(s: string, pat: seq<Item>) returns (parts: seq<string>)
    requires MatchItems(s, pat).Some?
    ensures Concat(parts) == s[..MatchItems(s, pat).value]
    ensures Spells(parts, pat, s[MatchItems(s, pat).value..])
    decreases |pat|
  {
    var n := MatchItems(s, pat).value;
    if |pat| == 0 {
      parts := [];
    } else {
      var k := Front(s, pat[0]).value;
      var m := MatchItems(s[k..], pat[1..]).value;
      var tail := ItemsSound(s[k..], pat[1..]);
      parts := [s[..k]] + tail;
      assert parts[0] == s[..k] && parts[1..] == tail;
      FrontSound(s, pat[0], k);
      Slices(s, k, m);
      assert Concat(parts) == s[..k] + Concat(tail);
      assert Concat(tail) + s[n..] == s[k..];
      assert Spells(tail, pat[1..], s[n..]);
    }
  }

  /** How the slices of `s` at `k` and `k + m` fit together. */
  lemma Slices<T>(s: seq<T>, k: nat, m: nat)
    requires k + m <= |s|
    ensures s[..k] + s[k..][..m] == s[..k + m]
    ensures s[k..][..m] + s[k + m..] == s[k..]
    ensures s[k..][m..] == s[k + m..]
  {
  }
}
