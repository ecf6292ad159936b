/**
  The array operations the source chains together: `indexOf`, `filter`, and the
  "keep the first occurrence" filter `(x, i, self) => self.indexOf(x) === i`.
*/
module Lists {

  /** No element occurs twice. */
  predicate NoDup<T(==,!new)>(xs: seq<T>) {
    forall i, j :: 0 <= i < j < |xs| ==> xs[i] != xs[j]
  }

  /** `xs.indexOf(x)`: the first index holding `x`, or -1 when there is none. */
  function IndexOf<T(==,!new)>(xs: seq<T>, x: T): (r: int)
    ensures -1 <= r < |xs|
    ensures r == -1 <==> x !in xs
    ensures 0 <= r ==> xs[r] == x
    ensures forall i :: 0 <= i < |xs| && (r == -1 || i < r) ==> xs[i] != x
  {
    if xs == [] then -1
    else if xs[0] == x then 0
    else
      var k := IndexOf(xs[1..], x);
      if k == -1 then -1 else k + 1
  }

  /** The first index of an element lies before every other index holding it. */
  lemma IndexOfBefore<T(!new)>(xs: seq<T>, m: nat)
    requires m <= |xs|
    ensures forall y :: y in xs[..m] ==> 0 <= IndexOf(xs, y) < m
  {
    forall y | y in xs[..m] ensures 0 <= IndexOf(xs, y) < m {
      var i :| 0 <= i < m && xs[..m][i] == y;
      assert xs[i] == y;
    }
  }

  /** `self.indexOf(x) === i` holds exactly when `x` does not occur before position `i`. */
  lemma FirstIndexIff<T(!new)>(xs: seq<T>, i: nat)
    requires i < |xs|
    ensures IndexOf(xs, xs[i]) == i <==> xs[i] !in xs[..i]
  {
    IndexOfBefore(xs, i);
    var r := IndexOf(xs, xs[i]);
    assert r <= i;
    assert r < i ==> xs[..i][r] == xs[i];
  }

  /**
    `xs.filter((x, i, self) => keep(x) && self.indexOf(x) === i)`, applied to the
    first `n` positions of `xs`. The callback's test is written as "`x` does not
    occur before `i`", which `FirstIndexIff` shows to be the same test.
  */
  function FirstOccurrencesUpTo<T(==,!new)>(xs: seq<T>, keep: T -> bool, n: nat): seq<T>
    requires n <= |xs|
  {
    if n == 0 then []
    else
      var prev := FirstOccurrencesUpTo(xs, keep, n - 1);
      var x := xs[n - 1];
      if keep(x) && x !in xs[..n - 1] then prev + [x] else prev
  }

  /** The elements taken are exactly the kept elements of the first `n` positions. */
  lemma {:induction false} FirstOccurrencesUpToMembers<T(!new)>(xs: seq<T>, keep: T -> bool, n: nat)
    requires n <= |xs|
    ensures forall x :: x in FirstOccurrencesUpTo(xs, keep, n) <==> x in xs[..n] && keep(x)
  {
    if n > 0 {
      FirstOccurrencesUpToMembers(xs, keep, n - 1);
      assert xs[..n] == xs[..n - 1] + [xs[n - 1]];
    }
  }

  /** Each element is taken at its first position only, so none is taken twice. */
  lemma {:induction false} FirstOccurrencesUpToNoDup<T(!new)>(xs: seq<T>, keep: T -> bool, n: nat)
    requires n <= |xs|
    ensures NoDup(FirstOccurrencesUpTo(xs, keep, n))
  {
    if n > 0 {
      FirstOccurrencesUpToNoDup(xs, keep, n - 1);
      FirstOccurrencesUpToMembers(xs, keep, n - 1);
      var prev := FirstOccurrencesUpTo(xs, keep, n - 1);
      var x := xs[n - 1];
      if keep(x) && x !in xs[..n - 1] {
        assert x !in prev;
        assert FirstOccurrencesUpTo(xs, keep, n) == prev + [x];
      }
    }
  }

  /** The elements of `r` come in the order of their first index in `xs`. */
  predicate InFirstIndexOrder<T(==,!new)>(xs: seq<T>, r: seq<T>) {
    forall i, j :: 0 <= i < j < |r| ==> IndexOf(xs, r[i]) < IndexOf(xs, r[j])
  }

  /** The elements are taken in the order of their first occurrence. */
  lemma {:induction false} FirstOccurrencesUpToOrdered<T(!new)>(xs: seq<T>, keep: T -> bool, n: nat)
    requires n <= |xs|
    ensures InFirstIndexOrder(xs, FirstOccurrencesUpTo(xs, keep, n))
  {
    if n > 0 {
      FirstOccurrencesUpToOrdered(xs, keep, n - 1);
      var prev := FirstOccurrencesUpTo(xs, keep, n - 1);
      var x := xs[n - 1];
      if keep(x) && x !in xs[..n - 1] {
        FirstOccurrencesUpToMembers(xs, keep, n - 1);
        AppendFirstOccurrence(xs, prev, n - 1);
        assert FirstOccurrencesUpTo(xs, keep, n) == prev + [x];
      } else {
        assert FirstOccurrencesUpTo(xs, keep, n) == prev;
      }
    }
  }

  /** Appending the element at its first occurrence `i` to an ordered list drawn from before `i`. */
  lemma AppendFirstOccurrence<T(!new)>(xs: seq<T>, prev: seq<T>, i: nat)
    requires i < |xs| && xs[i] !in xs[..i]
    requires forall y :: y in prev ==> y in xs[..i]
    requires InFirstIndexOrder(xs, prev)
    ensures InFirstIndexOrder(xs, prev + [xs[i]])
  {
    FirstIndexIff(xs, i);
    IndexOfBefore(xs, i);
    AppendOrdered(xs, prev, xs[i]);
  }

  /** An element whose first index follows those of an ordered list extends it in order. */
  lemma AppendOrdered<T(!new)>(xs: seq<T>, prev: seq<T>, x: T)
    requires InFirstIndexOrder(xs, prev)
    requires forall y :: y in prev ==> IndexOf(xs, y) < IndexOf(xs, x)
    ensures InFirstIndexOrder(xs, prev + [x])
  {
    var r := prev + [x];
    forall i, j | 0 <= i < j < |r| ensures IndexOf(xs, r[i]) < IndexOf(xs, r[j]) {
      assert r[i] == prev[i];
      if j == |prev| {
        assert prev[i] in prev;
      } else {
        assert r[j] == prev[j];
      }
    }
  }

  /** The whole filter: distinct elements that satisfy `keep`, in order of first occurrence. */
  function FirstOccurrences<T(==,!new)>(xs: seq<T>, keep: T -> bool): (r: seq<T>)
    ensures forall x :: x in r <==> x in xs && keep(x)
    ensures NoDup(r)
    ensures forall i, j :: 0 <= i < j < |r| ==> IndexOf(xs, r[i]) < IndexOf(xs, r[j])
    ensures (forall i :: 0 <= i < |xs| ==> !keep(xs[i])) ==> r == []
  {
    assert xs[..|xs|] == xs;
    FirstOccurrencesUpToMembers(xs, keep, |xs|);
    FirstOccurrencesUpToNoDup(xs, keep, |xs|);
    FirstOccurrencesUpToOrdered(xs, keep, |xs|);
    var r := FirstOccurrencesUpTo(xs, keep, |xs|);
    assert r != [] ==> r[0] in r;
    r
  }

  /** On a list that is already distinct and all kept, the filter changes nothing. */
  lemma {:induction false} FirstOccurrencesUpToOfDistinct<T(!new)>(xs: seq<T>, keep: T -> bool, n: nat)
    requires n <= |xs| && NoDup(xs)
    requires forall x :: x in xs ==> keep(x)
    ensures FirstOccurrencesUpTo(xs, keep, n) == xs[..n]
  {
    if n > 0 {
      var x := xs[n - 1];
      assert x !in xs[..n - 1] by {
        var before := xs[..n - 1];
        forall j | 0 <= j < |before| ensures before[j] != x {
          assert before[j] == xs[j];
        }
      }
      assert keep(x) by { assert x in xs; }
      calc {
        FirstOccurrencesUpTo(xs, keep, n);
        FirstOccurrencesUpTo(xs, keep, n - 1) + [x];
        { FirstOccurrencesUpToOfDistinct(xs, keep, n - 1); }
        xs[..n - 1] + [x];
        xs[..n];
      }
    }
  }

  lemma FirstOccurrencesOfDistinct<T(!new)>(xs: seq<T>, keep: T -> bool)
    requires NoDup(xs)
    requires forall x :: x in xs ==> keep(x)
    ensures FirstOccurrences(xs, keep) == xs
  {
    FirstOccurrencesUpToOfDistinct(xs, keep, |xs|);
    assert xs[..|xs|] == xs;
  }

  /** Applying the filter twice is the same as applying it once. */
  lemma FirstOccurrencesIdempotent<T(!new)>(xs: seq<T>, keep: T -> bool)
    ensures FirstOccurrences(FirstOccurrences(xs, keep), keep) == FirstOccurrences(xs, keep)
  {
    FirstOccurrencesOfDistinct(FirstOccurrences(xs, keep), keep);
  }

  /** The filter over the first `n` positions only looks at those positions. */
  lemma {:induction false} FirstOccurrencesUpToAppend<T(!new)>(xs: seq<T>, ys: seq<T>, keep: T -> bool, n: nat)
    requires n <= |xs|
    ensures FirstOccurrencesUpTo(xs + ys, keep, n) == FirstOccurrencesUpTo(xs, keep, n)
  {
    if n > 0 {
      FirstOccurrencesUpToAppend(xs, ys, keep, n - 1);
      assert (xs + ys)[n - 1] == xs[n - 1];
      assert (xs + ys)[..n - 1] == xs[..n - 1];
    }
  }

  lemma PrefixTrans<T>(a: seq<T>, b: seq<T>, c: seq<T>)
    requires a <= b && b <= c
    ensures a <= c
  {
    assert c[..|b|][..|a|] == c[..|a|];
  }

  /** One more position can only add an element at the end. */
  lemma FirstOccurrencesUpToStep<T(!new)>(xs: seq<T>, keep: T -> bool, m: nat)
    requires 0 < m <= |xs|
    ensures FirstOccurrencesUpTo(xs, keep, m - 1) <= FirstOccurrencesUpTo(xs, keep, m)
  {
    var p := FirstOccurrencesUpTo(xs, keep, m - 1);
    assert FirstOccurrencesUpTo(xs, keep, m) == p || FirstOccurrencesUpTo(xs, keep, m) == p + [xs[m - 1]];
  }

  /** Looking at more positions only adds elements at the end. */
  lemma {:induction false} FirstOccurrencesUpToGrows<T(!new)>(xs: seq<T>, keep: T -> bool, n: nat, m: nat)
    requires n <= m <= |xs|
    ensures FirstOccurrencesUpTo(xs, keep, n) <= FirstOccurrencesUpTo(xs, keep, m)
    decreases m
  {
    if n < m {
      FirstOccurrencesUpToGrows(xs, keep, n, m - 1);
      FirstOccurrencesUpToStep(xs, keep, m);
      PrefixTrans(FirstOccurrencesUpTo(xs, keep, n), FirstOccurrencesUpTo(xs, keep, m - 1), FirstOccurrencesUpTo(xs, keep, m));
    }
  }

  /** Appending elements keeps the earlier result as a prefix: new elements go at the end. */
  lemma FirstOccurrencesPrefix<T(!new)>(xs: seq<T>, ys: seq<T>, keep: T -> bool)
    ensures FirstOccurrences(xs, keep) <= FirstOccurrences(xs + ys, keep)
  {
    FirstOccurrencesUpToAppend(xs, ys, keep, |xs|);
    FirstOccurrencesUpToGrows(xs + ys, keep, |xs|, |xs + ys|);
  }

  /** `xs.filter(p)`. */
  function Filter<T(!new)>(xs: seq<T>, p: T -> bool): (r: seq<T>)
    ensures |r| <= |xs|
    ensures forall x :: x in r <==> x in xs && p(x)
  {
    if xs == [] then []
    else (if p(xs[0]) then [xs[0]] else []) + Filter(xs[1..], p)
  }

  /** Each element is kept as often as it occurs when it satisfies `p`, and dropped otherwise. */
  lemma {:induction false} FilterCount<T(!new)>(xs: seq<T>, p: T -> bool, x: T)
    ensures multiset(Filter(xs, p))[x] == if p(x) then multiset(xs)[x] else 0
  {
    if xs != [] {
      FilterCount(xs[1..], p, x);
      assert xs == [xs[0]] + xs[1..];
    }
  }

  /** Filtering keeps relative order: it distributes over concatenation. */
  lemma {:induction false} FilterAppend<T(!new)>(xs: seq<T>, ys: seq<T>, p: T -> bool)
    ensures Filter(xs + ys, p) == Filter(xs, p) + Filter(ys, p)
  {
    if xs == [] {
      assert xs + ys == ys;
    } else {
      var h := if p(xs[0]) then [xs[0]] else [];
      calc {
        Filter(xs + ys, p);
        { assert (xs + ys)[0] == xs[0] && (xs + ys)[1..] == xs[1..] + ys; }
        h + Filter(xs[1..] + ys, p);
        { FilterAppend(xs[1..], ys, p); }
        h + (Filter(xs[1..], p) + Filter(ys, p));
        Filter(xs, p) + Filter(ys, p);
      }
    }
  }

  /** A filter whose condition every element meets returns its input. */
  lemma {:induction false} FilterAll<T(!new)>(xs: seq<T>, p: T -> bool)
    requires forall x :: x in xs ==> p(x)
    ensures Filter(xs, p) == xs
  {
    if xs != [] {
      FilterAll(xs[1..], p);
    }
  }

  /** Filters whose conditions agree on every element give the same result. */
  lemma {:induction false} FilterSame<T(!new)>(xs: seq<T>, p: T -> bool, q: T -> bool)
    requires forall x :: x in xs ==> p(x) == q(x)
    ensures Filter(xs, p) == Filter(xs, q)
  {
    if xs != [] {
      FilterSame(xs[1..], p, q);
    }
  }

  /** Filtering keeps a list free of duplicates. */
  lemma {:induction false} FilterNoDup<T(!new)>(xs: seq<T>, p: T -> bool)
    requires NoDup(xs)
    ensures NoDup(Filter(xs, p))
  {
    if xs != [] {
      FilterNoDup(xs[1..], p);
      assert xs[0] !in xs[1..];
    }
  }
}
