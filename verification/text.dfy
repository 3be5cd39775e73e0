/** Character-level text primitives used by all three cores: the whitespace
    and digit classes of regular expressions, lower-casing, substring search,
    trimming, splitting, joining, literal replacement and whitespace collapsing. */
module Text {
  import opened Seqs

  /** The `\s` class and the set `trim()`/`strip()` remove, restricted to the
      ASCII whitespace characters. */
  predicate IsSpace(c: char) {
    c == ' ' || c == '\t' || c == '\n' || c == '\r' || c == '\U{B}' || c == '\U{C}'
  }

  predicate NotSpace(c: char) {
    !IsSpace(c)
  }

  /** The `\d` class of JavaScript regular expressions. */
  predicate IsDigit(c: char) {
    '0' <= c <= '9'
  }

  /** `toLowerCase()` / `lower()` on ASCII and Latin-1 letters; every other
      character is left alone. Length-preserving. */
  function LowerChar(c: char): char {
    if 'A' <= c <= 'Z' || ('\U{C0}' <= c <= '\U{DE}' && c != '\U{D7}') then
      (c as int + 32) as char
    else
      c
  }

  function Lower(s: string): string {
    seq(|s|, i requires 0 <= i < |s| => LowerChar(s[i]))
  }

  /** The text `p` starts at index `i` of `s`. */
  predicate OccursAt(s: string, p: string, i: int) {
    0 <= i && i + |p| <= |s| && s[i..i + |p|] == p
  }

  predicate StartsWith(s: string, p: string) {
    OccursAt(s, p, 0)
  }

  /** `indexOf` / `find`: the first index at which `p` occurs in `s`. */
  function IndexOf(s: string, p: string): (r: Option<nat>)
    ensures r.Some? ==> OccursAt(s, p, r.value)
    ensures r.Some? ==> forall j :: 0 <= j < r.value ==> !OccursAt(s, p, j)
    ensures r.None? ==> forall j :: !OccursAt(s, p, j)
    decreases |s|
  {
    if StartsWith(s, p) then Some(0)
    else if |s| == 0 then None
    else
      var rest := IndexOf(s[1..], p);
      assert forall j :: 1 <= j && OccursAt(s, p, j) ==> OccursAt(s[1..], p, j - 1) by {
        forall j | 1 <= j && OccursAt(s, p, j) ensures OccursAt(s[1..], p, j - 1) {
          assert s[1..][j - 1..j - 1 + |p|] == s[j..j + |p|];
        }
      }
      match rest
      case Some(k) =>
        assert s[1..][k..k + |p|] == s[k + 1..k + 1 + |p|];
        Some(k + 1)
      case None => None
  }

  /** `includes` / `in` / `find(...) != -1`. */
  predicate Contains(s: string, p: string) {
    IndexOf(s, p).Some?
  }

  /** An occurrence in a suffix is an occurrence in the whole text, shifted. */
  lemma OccursShift(s: string, p: string, n: nat, j: nat)
    requires n <= |s|
    ensures OccursAt(s[n..], p, j) <==> OccursAt(s, p, n + j)
  {
    if n + j + |p| <= |s| {
      assert s[n..][j..j + |p|] == s[n + j..n + j + |p|];
    }
  }

  /** The text before the first occurrence of `p` does not contain `p`. */
  lemma NotBeforeFirst(s: string, p: string, i: nat)
    requires |p| > 0 && i <= |s|
    requires forall j :: 0 <= j < i ==> !OccursAt(s, p, j)
    ensures !Contains(s[..i], p)
  {
    forall j ensures !OccursAt(s[..i], p, j) {
      if 0 <= j && j + |p| <= i {
        PrefixSlice(s, i, j, j + |p|);
        assert !OccursAt(s, p, j);
      }
    }
  }

  /** A text that contains `p` contains each of its characters. */
  lemma ContainsFirstChar(s: string, p: string)
    requires |p| > 0 && Contains(s, p)
    ensures p[0] in s
  {
    var i := IndexOf(s, p).value;
    assert s[i] == s[i..i + |p|][0];
  }

  /** Length of the longest prefix of `s` made of characters satisfying `p`. */
  function Run(s: string, p: char -> bool): (n: nat)
    ensures n <= |s|
    ensures forall i :: 0 <= i < n ==> p(s[i])
    ensures n < |s| ==> !p(s[n])
    decreases |s|
  {
    if |s| > 0 && p(s[0]) then 1 + Run(s[1..], p) else 0
  }

  /** The longest prefix of `a + b` made of one class is `a`, when `b` does not
      continue it. */
  lemma RunExact(a: string, b: string, p: char -> bool)
    requires forall i :: 0 <= i < |a| ==> p(a[i])
    requires |b| == 0 || !p(b[0])
    ensures Run(a + b, p) == |a| && (a + b)[|a|..] == b
  {
  }

  /** Length of the longest suffix of `s` made of characters satisfying `p`. */
  function RunBack(s: string, p: char -> bool): (n: nat)
    ensures n <= |s|
    ensures forall i :: |s| - n <= i < |s| ==> p(s[i])
    ensures n < |s| ==> !p(s[|s| - n - 1])
    decreases |s|
  {
    if |s| > 0 && p(s[|s| - 1]) then 1 + RunBack(s[..|s| - 1], p) else 0
  }

  /** Removes the characters satisfying `p` from both ends of `s`. What is left
      is the infix of `s` starting after the leading run, all of whose removed
      characters satisfy `p`, and which neither starts nor ends with such a
      character. */
  function TrimWhere(s: string, p: char -> bool): (r: string)
    ensures Run(s, p) + |r| <= |s| && r == s[Run(s, p)..Run(s, p) + |r|]
    ensures forall k :: Run(s, p) + |r| <= k < |s| ==> p(s[k])
    ensures |r| == 0 || (!p(r[0]) && !p(r[|r| - 1]))
  {
    var i := Run(s, p);
    var t := s[i..];
    var n := RunBack(t, p);
    assert forall k :: i + |t| - n <= k < |s| ==> p(s[k]) by {
      forall k | i + |t| - n <= k < |s| ensures p(s[k]) {
        assert s[k] == t[k - i];
      }
    }
    t[..|t| - n]
  }

  /** JavaScript `trim()` and Python `strip()`. */
  function Trim(s: string): string {
    TrimWhere(s, IsSpace)
  }

  predicate IsTrimmed(s: string) {
    |s| == 0 || (!IsSpace(s[0]) && !IsSpace(s[|s| - 1]))
  }

  lemma TrimIsTrimmed(s: string)
    ensures IsTrimmed(Trim(s))
  {
  }

  /** A character of the class appended to `s` lengthens the leading run only
      when all of `s` is in it. */
  lemma {:induction false} RunSnoc(s: string, c: char, p: char -> bool)
    requires p(c)
    ensures Run(s + [c], p) == if Run(s, p) == |s| then |s| + 1 else Run(s, p)
    decreases |s|
  {
    if |s| == 0 {
      assert (s + [c])[1..] == [];
    } else {
      assert (s + [c])[0] == s[0] && (s + [c])[1..] == s[1..] + [c];
      if p(s[0]) {
        RunSnoc(s[1..], c, p);
      }
    }
  }

  /** A character of the class appended to `s` joins its trailing run. */
  lemma RunBackSnoc(t: string, c: char, p: char -> bool)
    requires p(c)
    ensures RunBack(t + [c], p) == 1 + RunBack(t, p)
  {
    assert (t + [c])[..|t|] == t;
  }

  /** A character of the class appended to `s` is trimmed away again. */
  lemma TrimWhereSnoc(s: string, c: char, p: char -> bool)
    requires p(c)
    ensures TrimWhere(s + [c], p) == TrimWhere(s, p)
  {
    var i := Run(s, p);
    RunSnoc(s, c, p);
    if i < |s| {
      SliceSnoc(s, c, i);
      RunBackSnoc(s[i..], c, p);
      DropLastSnoc(s[i..], c, RunBack(s[i..], p));
    }
  }

  /** A suffix of `s` with `c` appended. */
  lemma SliceSnoc(s: string, c: char, i: nat)
    requires i <= |s|
    ensures (s + [c])[i..] == s[i..] + [c]
  {
  }

  /** Dropping one more character from the end removes the appended `c`. */
  lemma DropLastSnoc(t: string, c: char, n: nat)
    requires n <= |t|
    ensures (t + [c])[..|t + [c]| - (1 + n)] == t[..|t| - n]
  {
  }

  /** Trailing whitespace added to text is trimmed away again. */
  lemma TrimSnocSpace(s: string, c: char)
    requires IsSpace(c)
    ensures Trim(s + [c]) == Trim(s)
  {
    TrimWhereSnoc(s, c, IsSpace);
  }

  /** Trimming text that is already trimmed changes nothing. */
  lemma TrimOfTrimmed(s: string)
    requires IsTrimmed(s)
    ensures Trim(s) == s
  {
    if |s| > 0 {
      assert Run(s, IsSpace) == 0;
      assert RunBack(s, IsSpace) == 0;
    }
  }

  predicate AllSpace(s: string) {
    forall k :: 0 <= k < |s| ==> IsSpace(s[k])
  }

  /** Whitespace-only text has no non-whitespace characters to keep. */
  lemma FilterAllSpace(s: string)
    requires AllSpace(s)
    ensures Filter(s, NotSpace) == []
  {
    FilterNone(s, NotSpace);
  }

  /** A string is its leading run, its trimmed text and its trailing run, in
      that order. */
  lemma TrimWhereSplits(s: string, p: char -> bool) returns (lead: string, trail: string)
    ensures s == lead + (TrimWhere(s, p) + trail)
    ensures forall k :: 0 <= k < |lead| ==> p(lead[k])
    ensures forall k :: 0 <= k < |trail| ==> p(trail[k])
  {
    var i := Run(s, p);
    var j := i + |TrimWhere(s, p)|;
    lead, trail := s[..i], s[j..];
    Split3(s, i, j);
    forall k | 0 <= k < |trail| ensures p(trail[k]) {
      assert trail[k] == s[j + k];
    }
  }

  /** A string is its leading whitespace, its trimmed text and its trailing
      whitespace, in that order. */
  lemma TrimSplits(s: string) returns (lead: string, trail: string)
    ensures s == lead + (Trim(s) + trail)
    ensures AllSpace(lead) && AllSpace(trail)
  {
    lead, trail := TrimWhereSplits(s, IsSpace);
  }

  /** Trimming removes whitespace only: the non-whitespace characters remain,
      in order. */
  lemma TrimKeepsNonSpace(s: string)
    ensures Filter(Trim(s), NotSpace) == Filter(s, NotSpace)
  {
    var lead, trail := TrimSplits(s);
    FilterAllSpace(lead);
    FilterAllSpace(trail);
    FilterFrame(s, lead, Trim(s), trail, NotSpace);
  }

  /** A string split on the characters satisfying `isSep` (`split`,
      `splitlines`): the pieces, in order, between consecutive separators. */
  function SplitWhere(s: string, isSep: char -> bool): (r: seq<string>)
    ensures |r| >= 1
    ensures forall k, i :: 0 <= k < |r| && 0 <= i < |r[k]| ==> !isSep(r[k][i])
    decreases |s|
  {
    if |s| == 0 then [""]
    else
      var rest := SplitWhere(s[1..], isSep);
      if isSep(s[0]) then [""] + rest
      else [[s[0]] + rest[0]] + rest[1..]
  }

  /** The pieces joined with `sep` between consecutive ones (`join`). */
  function JoinWith(ls: seq<string>, sep: char): string
    requires |ls| >= 1
    decreases |ls|
  {
    if |ls| == 1 then ls[0]
    else JoinWith(ls[..|ls| - 1], sep) + [sep] + ls[|ls| - 1]
  }

  /** Splitting around one separator splits the two sides independently. */
  lemma {:induction false} SplitAround(a: string, sep: char, b: string, isSep: char -> bool)
    requires isSep(sep)
    ensures SplitWhere(a + [sep] + b, isSep) == SplitWhere(a, isSep) + SplitWhere(b, isSep)
    decreases |a|
  {
    if |a| == 0 {
      assert a + [sep] + b == [sep] + b;
      assert ([sep] + b)[1..] == b;
    } else {
      TailAppend(a, [sep], b);
      SplitAround(a[1..], sep, b, isSep);
      PiecesAppend([a[0]], "", SplitWhere(a[1..], isSep), SplitWhere(b, isSep));
    }
  }

  /** A piece without separators splits into itself. */
  lemma {:induction false} SplitPlain(s: string, isSep: char -> bool)
    requires forall i :: 0 <= i < |s| ==> !isSep(s[i])
    ensures SplitWhere(s, isSep) == [s]
    decreases |s|
  {
    if |s| > 0 {
      SplitPlain(s[1..], isSep);
      assert [s[0]] + s[1..] == s;
    }
  }

  /** Splitting undoes joining, as long as no piece holds a separator. */
  lemma {:induction false} SplitJoin(ls: seq<string>, sep: char, isSep: char -> bool)
    requires |ls| >= 1 && isSep(sep)
    requires forall k, i :: 0 <= k < |ls| && 0 <= i < |ls[k]| ==> !isSep(ls[k][i])
    ensures SplitWhere(JoinWith(ls, sep), isSep) == ls
    decreases |ls|
  {
    var last := ls[|ls| - 1];
    SplitPlain(last, isSep);
    if |ls| > 1 {
      SplitJoin(ls[..|ls| - 1], sep, isSep);
      SplitAround(JoinWith(ls[..|ls| - 1], sep), sep, last, isSep);
    }
  }

  /** The condition "is the character `sep`", as a separator test. */
  function Is(sep: char): char -> bool {
    c => c == sep
  }

  /** Literal replacement of every non-overlapping occurrence of `pat`, left to
      right (`str.replace`, `String.replace` with a global pattern). */
  function ReplaceAll(s: string, pat: string, rep: string): string
    requires |pat| > 0
    decreases |s|
  {
    if |s| == 0 then ""
    else if StartsWith(s, pat) then rep + ReplaceAll(s[|pat|..], pat, rep)
    else [s[0]] + ReplaceAll(s[1..], pat, rep)
  }

  /** Replacing a text that does not occur changes nothing. */
  lemma {:induction false} ReplaceAbsent(s: string, pat: string, rep: string)
    requires |pat| > 0 && !Contains(s, pat)
    ensures ReplaceAll(s, pat, rep) == s
    decreases |s|
  {
    if |s| > 0 {
      ReplaceAbsent(s[1..], pat, rep);
    }
  }

  /** Text that does not start with the pattern keeps its first character. */
  lemma ReplaceSkip(c: char, z: string, pat: string, rep: string)
    requires |pat| > 0 && !StartsWith([c] + z, pat)
    ensures ReplaceAll([c] + z, pat, rep) == [c] + ReplaceAll(z, pat, rep)
  {
    assert ([c] + z)[1..] == z;
  }

  /** Text in which the pattern's first character never occurs is copied as it
      is, and replacement goes on after it. */
  lemma {:induction false} ReplacePrefix(x: string, y: string, pat: string, rep: string)
    requires |pat| > 0 && pat[0] !in x
    ensures ReplaceAll(x + y, pat, rep) == x + ReplaceAll(y, pat, rep)
    decreases |x|
  {
    if |x| == 0 {
      assert x + y == y;
    } else {
      var s := x + y;
      assert s[0] == x[0] && s[1..] == x[1..] + y;
      assert !StartsWith(s, pat) by {
        if |pat| <= |s| {
          assert s[0..|pat|][0] == s[0];
        }
      }
      ReplacePrefix(x[1..], y, pat, rep);
      AppendAssoc([x[0]], x[1..], ReplaceAll(y, pat, rep));
      HeadTail(x);
    }
  }

  /** Text without the first character of `p` does not contain `p`. */
  lemma LacksFirstChar(s: string, p: string)
    requires |p| > 0 && p[0] !in s
    ensures !Contains(s, p)
  {
    if Contains(s, p) {
      ContainsFirstChar(s, p);
    }
  }

  /** No two adjacent characters are both whitespace. */
  predicate NoDoubleSpace(s: string) {
    forall i :: 0 <= i < |s| - 1 ==> !(IsSpace(s[i]) && IsSpace(s[i + 1]))
  }

  /** The only whitespace character present is the plain space. */
  predicate OnlyBlanks(s: string) {
    forall i :: 0 <= i < |s| ==> IsSpace(s[i]) ==> s[i] == ' '
  }

  /** Text in the form whitespace normalisation produces. */
  predicate Normalized(s: string) {
    IsTrimmed(s) && NoDoubleSpace(s) && OnlyBlanks(s)
  }

  /** `replace(/\s+/g, ' ')` / `re.sub(r"\s+", " ", ...)`: every maximal run of
      whitespace becomes one space. */
  function Collapse(s: string): (r: string)
    ensures NoDoubleSpace(r) && OnlyBlanks(r)
    ensures |r| == 0 <==> |s| == 0
    ensures |s| > 0 ==> (IsSpace(r[0]) <==> IsSpace(s[0]))
    decreases |s|
  {
    if |s| == 0 then ""
    else if IsSpace(s[0]) then
      var n := Run(s, IsSpace);
      " " + Collapse(s[n..])
    else
      [s[0]] + Collapse(s[1..])
  }

  /** Collapsing whitespace keeps every other character, in order. */
  lemma {:induction false} CollapseKeepsNonSpace(s: string)
    ensures Filter(Collapse(s), NotSpace) == Filter(s, NotSpace)
    decreases |s|
  {
    if |s| > 0 {
      if IsSpace(s[0]) {
        var n := Run(s, IsSpace);
        var rest := Collapse(s[n..]);
        assert Collapse(s) == " " + rest;
        CollapseKeepsNonSpace(s[n..]);
        assert s == s[..n] + s[n..];
        FilterAppend(s[..n], s[n..], NotSpace);
        FilterNone(s[..n], NotSpace);
        FilterAppend(" ", rest, NotSpace);
        assert Filter(" ", NotSpace) == [];
      } else {
        assert Collapse(s) == [s[0]] + Collapse(s[1..]);
        CollapseKeepsNonSpace(s[1..]);
        FilterAppend([s[0]], Collapse(s[1..]), NotSpace);
        FilterAppend([s[0]], s[1..], NotSpace);
        HeadTail(s);
      }
    }
  }

  /** Text without whitespace runs, line breaks or other whitespace than the
      plain space is left alone by collapsing. */
  lemma {:induction false} CollapseFixed(s: string)
    requires NoDoubleSpace(s) && OnlyBlanks(s)
    ensures Collapse(s) == s
    decreases |s|
  {
    if |s| > 0 {
      if IsSpace(s[0]) {
        assert Run(s, IsSpace) == 1 by {
          if |s| > 1 {
            assert !IsSpace(s[1]);
          }
        }
      }
      CollapseFixed(s[1..]);
    }
  }

  /** Collapsing whitespace copies a prefix that has no whitespace runs, no
      whitespace other than the space, and does not end in a space. */
  lemma {:induction false} CollapsePrefix(x: string, y: string)
    requires NoDoubleSpace(x) && OnlyBlanks(x) && (|x| == 0 || !IsSpace(x[|x| - 1]))
    ensures Collapse(x + y) == x + Collapse(y)
    decreases |x|
  {
    if |x| == 0 {
      assert x + y == y;
    } else {
      var s := x + y;
      assert s[0] == x[0] && s[1..] == x[1..] + y;
      if IsSpace(x[0]) {
        assert |x| >= 2 && !IsSpace(x[1]) && x[0] == ' ';
        assert s[1] == x[1];
        assert Run(s, IsSpace) == 1 by {
          assert Run(s, IsSpace) == 1 + Run(s[1..], IsSpace);
        }
      }
      InfixKeepsSpacing(x, 1, |x|);
      assert x[1..|x|] == x[1..];
      CollapsePrefix(x[1..], y);
      AppendAssoc([x[0]], x[1..], Collapse(y));
      HeadTail(x);
    }
  }

  /** A whitespace run before text that starts with none collapses to a
      space. */
  lemma CollapseLeadingSpace(w: string, b: string)
    requires |w| > 0 && AllSpace(w)
    requires NoDoubleSpace(b) && OnlyBlanks(b) && |b| > 0 && !IsSpace(b[0])
    ensures Collapse(w + b) == " " + b
  {
    RunExact(w, b, IsSpace);
    CollapseFixed(b);
  }

  /** Two trimmed, non-empty texts joined by a space are trimmed. */
  lemma TrimmedJoin(a: string, b: string)
    requires IsTrimmed(a) && IsTrimmed(b) && |a| > 0 && |b| > 0
    ensures Trim(a + " " + b) == a + " " + b
  {
    var c := a + " " + b;
    assert c[0] == a[0] && c[|c| - 1] == b[|b| - 1];
    TrimOfTrimmed(c);
  }

  /** Text ending in a space followed by text starting with one. */
  lemma SpacesMeet(a: string, b: string)
    ensures (a + " ") + (" " + b) == a + "  " + b
  {
    AppendAssoc(a, " ", " " + b);
    AppendAssoc(" ", " ", b);
    assert " " + " " == "  ";
    AppendAssoc(a, "  ", b);
  }

  /** A whitespace gap between two non-empty normalised texts ends as one
      space once collapsed and trimmed. */
  lemma CollapseGap(a: string, w: string, b: string)
    requires Normalized(a) && Normalized(b) && |a| > 0 && |b| > 0
    requires |w| > 0 && AllSpace(w)
    ensures Trim(Collapse(a + w + b)) == a + " " + b
  {
    assert a + w + b == a + (w + b);
    CollapsePrefix(a, w + b);
    CollapseLeadingSpace(w, b);
    assert a + (" " + b) == a + " " + b;
    TrimmedJoin(a, b);
  }

  /** Two normalised texts joined directly are normalised. */
  lemma NormalizedJoin(a: string, b: string)
    requires Normalized(a) && Normalized(b)
    ensures Normalized(a + b)
  {
    var s := a + b;
    forall i | 0 <= i < |s| - 1 ensures !(IsSpace(s[i]) && IsSpace(s[i + 1])) {
      if i + 1 < |a| {
        assert s[i] == a[i] && s[i + 1] == a[i + 1];
      } else if i >= |a| {
        assert s[i] == b[i - |a|] && s[i + 1] == b[i + 1 - |a|];
      } else {
        assert s[i] == a[|a| - 1];
      }
    }
    forall i | 0 <= i < |s| && IsSpace(s[i]) ensures s[i] == ' ' {
      if i < |a| {
        assert s[i] == a[i];
      } else {
        assert s[i] == b[i - |a|];
      }
    }
    if |s| > 0 {
      assert |a| > 0 ==> s[0] == a[0];
      assert |a| == 0 ==> s[0] == b[0];
      assert |b| > 0 ==> s[|s| - 1] == b[|b| - 1];
      assert |b| == 0 ==> s[|s| - 1] == a[|a| - 1];
    }
  }

  /** An infix of whitespace-normalised text has no whitespace runs either. */
  lemma InfixKeepsSpacing(s: string, i: nat, j: nat)
    requires i <= j <= |s| && NoDoubleSpace(s) && OnlyBlanks(s)
    ensures NoDoubleSpace(s[i..j]) && OnlyBlanks(s[i..j])
  {
    var t := s[i..j];
    forall k | 0 <= k < |t| - 1
      ensures !(IsSpace(t[k]) && IsSpace(t[k + 1]))
    {
      assert t[k] == s[i + k] && t[k + 1] == s[i + k + 1];
    }
    forall k | 0 <= k < |t| && IsSpace(t[k])
      ensures t[k] == ' '
    {
      assert t[k] == s[i + k];
    }
  }

  /** Collapsing and then trimming yields normalised text. */
  lemma CollapseTrimNormalized(s: string)
    ensures Normalized(Trim(Collapse(s)))
  {
    var c := Collapse(s);
    var r := Trim(c);
    var i := Run(c, IsSpace);
    InfixKeepsSpacing(c, i, i + |r|);
  }
}
