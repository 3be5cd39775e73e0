/** A stable sort into non-increasing order, as `Array.prototype.sort` with a
    descending comparator and Python's `sorted(..., reverse=True)` perform it:
    equal elements keep the order they had in the input. */
module Sorting {
  import opened Seqs

  /** `geq(a, b)` says `a` may come before `b`; it must be total and transitive.
      Transitivity is only applied where a proof names the chain `a, b, c`. */
  ghost predicate TotalPreorder<T(!new)>(geq: (T, T) -> bool) {
    && (forall a, b :: geq(a, b) || geq(b, a))
    && (forall a, b, c {:trigger Chain(geq, a, b, c)} :: Chain(geq, a, b, c) ==> geq(a, c))
  }

  predicate Chain<T>(geq: (T, T) -> bool, a: T, b: T, c: T) {
    geq(a, b) && geq(b, c)
  }

  /** Every element may come before every later one. */
  predicate SortedDesc<T>(s: seq<T>, geq: (T, T) -> bool) {
    forall i, j :: 0 <= i < j < |s| ==> geq(s[i], s[j])
  }

  /** `a` and `b` are ranked equally. */
  predicate Tied<T>(geq: (T, T) -> bool, a: T, b: T) {
    geq(a, b) && geq(b, a)
  }

  /** The condition "tied with `y`", as a filter predicate. */
  function TiedTo<T>(geq: (T, T) -> bool, y: T): T -> bool {
    z => Tied(geq, z, y)
  }

  /** Places `x` just before the first element of `s` that may not come before it. */
  function Insert<T>(s: seq<T>, x: T, geq: (T, T) -> bool): (r: seq<T>)
    ensures multiset(r) == multiset(s) + multiset{x}
    ensures |r| == |s| + 1
    decreases |s|
  {
    if |s| == 0 then [x]
    else if geq(s[0], x) then
      assert s == [s[0]] + s[1..];
      [s[0]] + Insert(s[1..], x, geq)
    else
      [x] + s
  }

  /** Insertion sort into non-increasing order, processing the input front to back. */
  function SortDesc<T>(xs: seq<T>, geq: (T, T) -> bool): (r: seq<T>)
    ensures multiset(r) == multiset(xs)
    ensures |r| == |xs|
    decreases |xs|
  {
    if |xs| == 0 then []
    else
      assert xs == xs[..|xs| - 1] + [xs[|xs| - 1]];
      Insert(SortDesc(xs[..|xs| - 1], geq), xs[|xs| - 1], geq)
  }

  lemma InsertPast<T>(s: seq<T>, x: T, geq: (T, T) -> bool)
    requires |s| > 0 && geq(s[0], x)
    ensures Insert(s, x, geq) == [s[0]] + Insert(s[1..], x, geq)
  {
  }

  lemma SortedTail<T>(s: seq<T>, geq: (T, T) -> bool)
    requires |s| > 0 && SortedDesc(s, geq)
    ensures SortedDesc(s[1..], geq)
  {
  }

  /** Inserting into a sorted sequence keeps it sorted. */
  lemma {:induction false} InsertSorted<T(!new)>(s: seq<T>, x: T, geq: (T, T) -> bool)
    requires TotalPreorder(geq) && SortedDesc(s, geq)
    ensures SortedDesc(Insert(s, x, geq), geq)
    decreases |s|
  {
    if |s| > 0 {
      if geq(s[0], x) {
        var rest := Insert(s[1..], x, geq);
        SortedTail(s, geq);
        InsertSorted(s[1..], x, geq);
        HeadTail(s);
        forall j | 0 <= j < |rest| ensures geq(s[0], rest[j]) {
          assert rest[j] in multiset(s[1..]) + multiset{x};
          if rest[j] in multiset(s[1..]) {
            var k :| 0 <= k < |s[1..]| && s[1..][k] == rest[j];
            assert s[k + 1] == rest[j];
          }
        }
      } else {
        forall j | 0 <= j < |s| ensures geq(x, s[j]) {
          if j > 0 {
            assert Chain(geq, x, s[0], s[j]);
          }
        }
      }
    }
  }

  /** The sort yields a sequence in non-increasing order. */
  lemma {:induction false} SortDescSorted<T(!new)>(xs: seq<T>, geq: (T, T) -> bool)
    requires TotalPreorder(geq)
    ensures SortedDesc(SortDesc(xs, geq), geq)
    decreases |xs|
  {
    if |xs| > 0 {
      SortDescSorted(xs[..|xs| - 1], geq);
      InsertSorted(SortDesc(xs[..|xs| - 1], geq), xs[|xs| - 1], geq);
    }
  }

  /** Below an element that ranks strictly lower than `x`, a sorted sequence
      holds nothing tied with `x`. */
  lemma NoneTiedBelow<T(!new)>(s: seq<T>, x: T, y: T, geq: (T, T) -> bool)
    requires TotalPreorder(geq) && SortedDesc(s, geq)
    requires |s| > 0 && !geq(s[0], x) && Tied(geq, x, y)
    ensures Filter(s, TiedTo(geq, y)) == []
  {
    var p := TiedTo(geq, y);
    forall i | 0 <= i < |s| ensures !p(s[i]) {
      if p(s[i]) {
        assert Chain(geq, s[i], y, x);
        if i > 0 {
          assert Chain(geq, s[0], s[i], x);
        }
        assert false;
      }
    }
    FilterNone(s, p);
  }

  /** Inserting appends `x` to the group of elements tied with it. */
  lemma {:induction false} InsertStable<T(!new)>(s: seq<T>, x: T, y: T, geq: (T, T) -> bool)
    requires TotalPreorder(geq) && SortedDesc(s, geq)
    ensures Filter(Insert(s, x, geq), TiedTo(geq, y))
         == Filter(s, TiedTo(geq, y)) + Filter([x], TiedTo(geq, y))
    decreases |s|
  {
    if |s| > 0 {
      if geq(s[0], x) {
        SortedTail(s, geq);
        InsertStable(s[1..], x, y, geq);
        InsertPast(s, x, geq);
        StablePast(s[0], s[1..], Insert(s[1..], x, geq), x, TiedTo(geq, y));
        HeadTail(s);
      } else {
        if TiedTo(geq, y)(x) {
          NoneTiedBelow(s, x, y, geq);
        }
        InsertFront(s, x, geq);
        StableFront(s, x, TiedTo(geq, y));
      }
    }
  }

  /** Where `x` goes in front, inserting is prepending. */
  lemma InsertFront<T>(s: seq<T>, x: T, geq: (T, T) -> bool)
    requires |s| > 0 && !geq(s[0], x)
    ensures Insert(s, x, geq) == [x] + s
  {
  }

  /** The step of `InsertStable` where `x` moves past the first element. */
  lemma StablePast<T>(h: T, t: seq<T>, rest: seq<T>, x: T, p: T -> bool)
    requires Filter(rest, p) == Filter(t, p) + Filter([x], p)
    ensures Filter([h] + rest, p) == Filter([h] + t, p) + Filter([x], p)
  {
    FilterAppend([h], rest, p);
    FilterAppend([h], t, p);
    AppendAssoc(Filter([h], p), Filter(t, p), Filter([x], p));
  }

  /** The step of `InsertStable` where `x` goes in front of a sequence holding
      nothing that `p` keeps, unless `x` itself is dropped. */
  lemma StableFront<T>(s: seq<T>, x: T, p: T -> bool)
    requires p(x) ==> Filter(s, p) == []
    ensures Filter([x] + s, p) == Filter(s, p) + Filter([x], p)
  {
    FilterAppend([x], s, p);
    FilterSingle(x, p);
    if p(x) {
      assert [x] + [] == [] + [x];
    } else {
      assert [] + Filter(s, p) == Filter(s, p) + [];
    }
  }

  /** Stability: the elements tied with any `y` appear in the output in the same
      order as in the input. */
  lemma {:induction false} SortStable<T(!new)>(xs: seq<T>, y: T, geq: (T, T) -> bool)
    requires TotalPreorder(geq)
    ensures Filter(SortDesc(xs, geq), TiedTo(geq, y)) == Filter(xs, TiedTo(geq, y))
    decreases |xs|
  {
    if |xs| > 0 {
      var init, last := xs[..|xs| - 1], xs[|xs| - 1];
      var p := TiedTo(geq, y);
      assert xs == init + [last];
      SortStable(init, y, geq);
      SortDescSorted(init, geq);
      InsertStable(SortDesc(init, geq), last, y, geq);
      FilterAppend(init, [last], p);
    }
  }
}
