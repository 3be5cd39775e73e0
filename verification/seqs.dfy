/** Generic sequence helpers shared by every component: an optional value and
    an order-preserving filter with the facts the rest of the model relies on. */
module Seqs {

  /** A value that may be absent (`undefined`/`null` in TypeScript, `None` in Python). */
  datatype Option<+T> = None | Some(value: T)

  /** `Array.prototype.filter` / a Python list comprehension with a condition:
      keeps, in their original order, exactly the elements that satisfy `p`. */
  function Filter<T>(xs: seq<T>, p: T -> bool): (r: seq<T>)
    ensures |r| <= |xs|
    ensures forall i :: 0 <= i < |r| ==> p(r[i])
    decreases |xs|
  {
    if |xs| == 0 then []
    else
      assert xs == [xs[0]] + xs[1..];
      (if p(xs[0]) then [xs[0]] else []) + Filter(xs[1..], p)
  }

  /** The filter keeps nothing that was not there, and nothing twice. */
  lemma {:induction false} FilterSubMultiset<T>(xs: seq<T>, p: T -> bool)
    ensures multiset(Filter(xs, p)) <= multiset(xs)
    decreases |xs|
  {
    if |xs| > 0 {
      FilterSubMultiset(xs[1..], p);
      HeadTail(xs);
    }
  }

  /** A sequence is the concatenation of the three slices two cut points make. */
  lemma Split3<T>(s: seq<T>, i: nat, j: nat)
    requires i <= j <= |s|
    ensures s == s[..i] + (s[i..j] + s[j..])
  {
    assert s == s[..i] + s[i..j] + s[j..];
    AppendAssoc(s[..i], s[i..j], s[j..]);
  }

  /** Concatenation is associative; stated once so that proofs need not
      rediscover it element by element. */
  lemma AppendAssoc<T>(a: seq<T>, b: seq<T>, c: seq<T>)
    ensures a + (b + c) == (a + b) + c
  {
  }

  /** A slice of a prefix is the same slice of the whole sequence. */
  lemma PrefixSlice<T>(s: seq<T>, n: nat, a: nat, b: nat)
    requires a <= b <= n <= |s|
    ensures s[..n][a..b] == s[a..b]
  {
  }

  /** A property of every element carries over to any rearrangement of a part
      of the elements. */
  lemma SubMultisetAll<T>(a: seq<T>, b: seq<T>, p: T -> bool)
    requires multiset(a) <= multiset(b)
    requires forall k :: 0 <= k < |b| ==> p(b[k])
    ensures forall k :: 0 <= k < |a| ==> p(a[k])
  {
    forall k | 0 <= k < |a| ensures p(a[k]) {
      assert a[k] in multiset(b);
    }
  }

  /** Extending the first of some pieces, or adding a piece in front, commutes
      with appending more pieces. */
  lemma PiecesAppend<T>(h: seq<T>, e: seq<T>, xs: seq<seq<T>>, ys: seq<seq<T>>)
    requires |xs| >= 1
    ensures [h + (xs + ys)[0]] + (xs + ys)[1..] == ([h + xs[0]] + xs[1..]) + ys
    ensures [e] + (xs + ys) == ([e] + xs) + ys
  {
    assert (xs + ys)[1..] == xs[1..] + ys;
  }

  /** A non-empty sequence is its head followed by its tail. */
  lemma HeadTail<T>(s: seq<T>)
    requires |s| > 0
    ensures s == [s[0]] + s[1..]
  {
  }

  /** A non-empty sequence is its front followed by its last element. */
  lemma InitLast<T>(s: seq<T>)
    requires |s| > 0
    ensures s[..|s| - 1] + [s[|s| - 1]] == s
  {
  }

  /** Dropping the head of a concatenation drops the head of its first part. */
  lemma TailAppend<T>(a: seq<T>, m: seq<T>, b: seq<T>)
    requires |a| > 0
    ensures (a + m + b)[0] == a[0]
    ensures (a + m + b)[1..] == a[1..] + m + b
  {
  }

  lemma FilterSingle<T>(x: T, p: T -> bool)
    ensures Filter([x], p) == if p(x) then [x] else []
  {
    assert [x][1..] == [];
  }

  /** Every element of `xs` that satisfies `p` survives the filter. */
  lemma {:induction false} FilterKeeps<T>(xs: seq<T>, p: T -> bool, i: nat)
    requires i < |xs| && p(xs[i])
    ensures xs[i] in Filter(xs, p)
    decreases |xs|
  {
    if i > 0 {
      FilterKeeps(xs[1..], p, i - 1);
    }
  }

  /** Filtering distributes over concatenation: this is what "order-preserving" means. */
  lemma {:induction false} FilterAppend<T>(a: seq<T>, b: seq<T>, p: T -> bool)
    ensures Filter(a + b, p) == Filter(a, p) + Filter(b, p)
    decreases |a|
  {
    if |a| == 0 {
      assert a + b == b;
    } else {
      assert (a + b)[1..] == a[1..] + b;
      FilterAppend(a[1..], b, p);
    }
  }

  /** Filtering with a condition every element meets changes nothing. */
  lemma {:induction false} FilterAll<T>(xs: seq<T>, p: T -> bool)
    requires forall i :: 0 <= i < |xs| ==> p(xs[i])
    ensures Filter(xs, p) == xs
    decreases |xs|
  {
    if |xs| > 0 {
      FilterAll(xs[1..], p);
    }
  }

  /** Filtering with a condition no element meets leaves nothing. */
  lemma {:induction false} FilterNone<T>(xs: seq<T>, p: T -> bool)
    requires forall i :: 0 <= i < |xs| ==> !p(xs[i])
    ensures Filter(xs, p) == []
    decreases |xs|
  {
    if |xs| > 0 {
      FilterNone(xs[1..], p);
    }
  }

  /** Two filters in a row keep what their conjunction keeps. */
  lemma {:induction false} FilterFilter<T>(xs: seq<T>, p: T -> bool, q: T -> bool)
    ensures Filter(Filter(xs, p), q) == Filter(xs, x => p(x) && q(x))
    decreases |xs|
  {
    if |xs| > 0 {
      var h := if p(xs[0]) then [xs[0]] else [];
      FilterAppend(h, Filter(xs[1..], p), q);
      FilterFilter(xs[1..], p, q);
    }
  }

  /** Filters with pointwise-equivalent conditions agree. */
  lemma {:induction false} FilterExt<T>(xs: seq<T>, p: T -> bool, q: T -> bool)
    requires forall i :: 0 <= i < |xs| ==> (p(xs[i]) <==> q(xs[i]))
    ensures Filter(xs, p) == Filter(xs, q)
    decreases |xs|
  {
    if |xs| > 0 {
      FilterExt(xs[1..], p, q);
    }
  }

  /** Filtering away a frame of dropped elements on both sides leaves the middle. */
  lemma FilterFrame<T>(s: seq<T>, a: seq<T>, m: seq<T>, b: seq<T>, p: T -> bool)
    requires s == a + (m + b)
    requires Filter(a, p) == [] && Filter(b, p) == []
    ensures Filter(s, p) == Filter(m, p)
  {
    FilterAppend(a, m + b, p);
    FilterAppend(m, b, p);
    assert [] + (Filter(m, p) + []) == Filter(m, p);
  }

  /** Three filters in a row keep what a single condition equivalent to their
      conjunction keeps. */
  lemma FilterChain<T>(xs: seq<T>, a: T -> bool, b: T -> bool, c: T -> bool, q: T -> bool)
    requires forall i :: 0 <= i < |xs| ==> (q(xs[i]) <==> a(xs[i]) && b(xs[i]) && c(xs[i]))
    ensures Filter(Filter(Filter(xs, a), b), c) == Filter(xs, q)
  {
    FilterFilter(xs, a, b);
    var ab := x => a(x) && b(x);
    FilterFilter(xs, ab, c);
    FilterExt(xs, x => ab(x) && c(x), q);
  }

  /** The first `n` elements, or all of them when there are fewer (`slice(0, n)`). */
  function Take<T>(xs: seq<T>, n: nat): (r: seq<T>)
    ensures |r| == if |xs| < n then |xs| else n
    ensures r <= xs
  {
    if |xs| <= n then xs else xs[..n]
  }

  /** A sequence is its first `n` elements followed by the rest. */
  lemma TakeSplit<T>(xs: seq<T>, n: nat)
    ensures xs == Take(xs, n) + xs[|Take(xs, n)|..]
  {
  }

  /** What a filter keeps from a prefix is a prefix of what it keeps from the whole. */
  lemma FilterTake<T>(xs: seq<T>, n: nat, p: T -> bool)
    ensures Filter(Take(xs, n), p) <= Filter(xs, p)
  {
    TakeSplit(xs, n);
    FilterAppend(Take(xs, n), xs[|Take(xs, n)|..], p);
  }
}
