/** Sorting, filtering and truncating by a strict total order: the result depends only on the members. */
module Ordering {
  import opened Wrappers

  /** less orders the members of xs strictly and totally. */
  ghost predicate StrictTotalOn<T(!new)>(less: (T, T) -> bool, xs: seq<T>) {
    && (forall a :: a in xs ==> !less(a, a))
    && (forall a, b :: a in xs && b in xs ==> a == b || less(a, b) || less(b, a))
    && (forall a, b, c :: a in xs && b in xs && c in xs && less(a, b) && less(b, c) ==> less(a, c))
  }

  ghost predicate Sorted<T(!new)>(less: (T, T) -> bool, xs: seq<T>) {
    forall i, j :: 0 <= i < j < |xs| ==> less(xs[i], xs[j])
  }

  function Insert<T>(less: (T, T) -> bool, x: T, xs: seq<T>): (r: seq<T>)
    ensures multiset(r) == multiset(xs) + multiset{x} && |r| == |xs| + 1
  {
    if xs == [] || less(x, xs[0]) then [x] + xs
    else
      assert xs == [xs[0]] + xs[1..];
      [xs[0]] + Insert(less, x, xs[1..])
  }

  /** A stable sort. */
  function Sort<T>(less: (T, T) -> bool, xs: seq<T>): (r: seq<T>)
    ensures multiset(r) == multiset(xs) && |r| == |xs|
  {
    if xs == [] then []
    else
      assert xs == xs[..|xs| - 1] + [xs[|xs| - 1]];
      Insert(less, xs[|xs| - 1], Sort(less, xs[..|xs| - 1]))
  }

  function Filter<T>(p: T -> bool, xs: seq<T>): seq<T> {
    if xs == [] then []
    else if p(xs[0]) then [xs[0]] + Filter(p, xs[1..])
    else Filter(p, xs[1..])
  }

  /** xs arises from ys by dropping elements. */
  ghost predicate IsSubsequence<T(!new)>(xs: seq<T>, ys: seq<T>) {
    xs == [] || (ys != [] && ((xs[0] == ys[0] && IsSubsequence(xs[1..], ys[1..])) || IsSubsequence(xs, ys[1..])))
  }

  lemma SameMembers<T(!new)>(xs: seq<T>, ys: seq<T>)
    requires multiset(xs) == multiset(ys)
    ensures forall x :: x in xs <==> x in ys
    ensures |xs| == |ys|
  {
    forall x ensures x in xs <==> x in ys {
      assert x in xs <==> x in multiset(xs);
      assert x in ys <==> x in multiset(ys);
    }
    assert |multiset(xs)| == |xs| && |multiset(ys)| == |ys|;
  }

  lemma {:induction false} InsertSorts<T(!new)>(less: (T, T) -> bool, x: T, xs: seq<T>)
    requires Sorted(less, xs) && x !in xs
    requires forall a :: a in xs ==> less(a, x) || less(x, a)
    requires forall a, b :: a in xs && b in xs && less(x, a) && less(a, b) ==> less(x, b)
    ensures Sorted(less, Insert(less, x, xs))
  {
    var r := Insert(less, x, xs);
    if xs != [] && !less(x, xs[0]) {
      var tail := Insert(less, x, xs[1..]);
      InsertSorts(less, x, xs[1..]);
      forall i, j | 0 <= i < j < |r| ensures less(r[i], r[j]) {
        assert r[j] == tail[j - 1];
        if i == 0 {
          assert r[j] in multiset(tail);
          assert r[j] == x || r[j] in xs[1..];
          assert xs[0] in xs;
        } else {
          assert r[i] == tail[i - 1];
        }
      }
    } else {
      forall i, j | 0 <= i < j < |r| ensures less(r[i], r[j]) {
        if i == 0 {
          assert xs[0] in xs && xs[j - 1] in xs;
        }
      }
    }
  }

  lemma StrictTotalSubset<T(!new)>(less: (T, T) -> bool, xs: seq<T>, ys: seq<T>)
    requires StrictTotalOn(less, ys) && forall x :: x in xs ==> x in ys
    ensures StrictTotalOn(less, xs)
  {
  }

  lemma {:induction false} SortSorts<T(!new)>(less: (T, T) -> bool, xs: seq<T>)
    requires StrictTotalOn(less, xs) && Distinct(xs)
    ensures Sorted(less, Sort(less, xs))
  {
    if xs != [] {
      var n := |xs| - 1;
      StrictTotalSubset(less, xs[..n], xs);
      SortSorts(less, xs[..n]);
      var rest := Sort(less, xs[..n]);
      SameMembers(rest, xs[..n]);
      forall a | a in rest ensures a in xs && a != xs[n] {
        assert a in xs[..n];
        var k :| 0 <= k < n && xs[k] == a;
      }
      assert xs[n] in xs;
      InsertSorts(less, xs[n], rest);
    }
  }

  /** Two sorted sequences with the same members are equal: the sorted form is unique. */
  lemma {:induction false} SortedUnique<T(!new)>(less: (T, T) -> bool, xs: seq<T>, ys: seq<T>)
    requires Sorted(less, xs) && Sorted(less, ys) && StrictTotalOn(less, xs)
    requires forall x :: x in xs <==> x in ys
    ensures xs == ys
  {
    assert ys != [] ==> ys[0] in xs;
    if xs != [] {
      assert xs[0] in ys && ys[0] in xs;
      SameHead(less, xs, ys);
      forall x ensures x in xs[1..] <==> x in ys[1..] {
        TailMembers(less, xs, x);
        TailMembers(less, ys, x);
      }
      StrictTotalSubset(less, xs[1..], xs);
      SortedUnique(less, xs[1..], ys[1..]);
    }
  }

  lemma SortedIsDistinct<T(!new)>(less: (T, T) -> bool, sorted: seq<T>, xs: seq<T>)
    requires Sorted(less, sorted) && StrictTotalOn(less, xs) && forall x :: x in sorted ==> x in xs
    ensures Distinct(sorted)
  {
    forall i, j | 0 <= i < j < |sorted| ensures sorted[i] != sorted[j] {
      assert less(sorted[i], sorted[j]) && sorted[i] in xs;
    }
  }

  lemma SameHead<T(!new)>(less: (T, T) -> bool, xs: seq<T>, ys: seq<T>)
    requires xs != [] && ys != [] && Sorted(less, xs) && Sorted(less, ys) && StrictTotalOn(less, xs)
    requires forall x :: x in xs <==> x in ys
    ensures xs[0] == ys[0] && forall y :: y in ys ==> !less(y, y)
  {
    assert xs[0] in xs && ys[0] in ys;
    assert xs[0] in ys && ys[0] in xs;
    var i :| 0 <= i < |xs| && xs[i] == ys[0];
    var j :| 0 <= j < |ys| && ys[j] == xs[0];
  }

  lemma TailMembers<T(!new)>(less: (T, T) -> bool, xs: seq<T>, x: T)
    requires xs != [] && Sorted(less, xs) && !less(xs[0], xs[0])
    ensures x in xs[1..] <==> x in xs && x != xs[0]
  {
    assert xs == [xs[0]] + xs[1..];
    if x in xs[1..] {
      var k :| 0 <= k < |xs| - 1 && xs[1..][k] == x;
      assert less(xs[0], xs[k + 1]);
    }
  }

  /** Sorting forgets the order in which the members come. */
  lemma SortDependsOnMembers<T(!new)>(less: (T, T) -> bool, xs: seq<T>, ys: seq<T>)
    requires StrictTotalOn(less, xs) && Distinct(xs) && Distinct(ys)
    requires forall x :: x in xs <==> x in ys
    ensures Sort(less, xs) == Sort(less, ys)
  {
    StrictTotalSubset(less, ys, xs);
    SortSorts(less, xs);
    SortSorts(less, ys);
    var a, b := Sort(less, xs), Sort(less, ys);
    SameMembers(a, xs);
    SameMembers(b, ys);
    forall x ensures (x in a ==> x in xs) && (x in a <==> x in b) {
      assert x in a <==> x in xs;
      assert x in b <==> x in ys;
    }
    StrictTotalSubset(less, a, xs);
    SortedUnique(less, a, b);
  }

  // ----- filters

  lemma {:induction false} FilterMembers<T(!new)>(p: T -> bool, xs: seq<T>)
    ensures forall x :: x in Filter(p, xs) <==> x in xs && p(x)
    ensures Distinct(xs) ==> Distinct(Filter(p, xs))
    ensures |Filter(p, xs)| <= |xs|
  {
    if xs != [] {
      FilterMembers(p, xs[1..]);
      assert xs == [xs[0]] + xs[1..];
      DistinctCons(xs[0], xs[1..]);
      DistinctCons(xs[0], Filter(p, xs[1..]));
    }
  }

  lemma {:induction false} FilterSorted<T(!new)>(less: (T, T) -> bool, p: T -> bool, xs: seq<T>)
    requires Sorted(less, xs)
    ensures Sorted(less, Filter(p, xs))
  {
    if xs != [] {
      var rest := Filter(p, xs[1..]);
      FilterSorted(less, p, xs[1..]);
      FilterMembers(p, xs[1..]);
      forall j | 0 <= j < |rest| ensures less(xs[0], rest[j]) {
        assert rest[j] in rest;
        assert rest[j] in xs[1..];
        var k :| 0 <= k < |xs| - 1 && xs[1..][k] == rest[j];
        assert xs[k + 1] == rest[j];
      }
    }
  }

  lemma {:induction false} FilterIsSubsequence<T(!new)>(p: T -> bool, xs: seq<T>)
    ensures IsSubsequence(Filter(p, xs), xs)
  {
    if xs != [] {
      FilterIsSubsequence(p, xs[1..]);
    }
  }

  lemma {:induction false} FilterAppend<T(!new)>(p: T -> bool, xs: seq<T>, ys: seq<T>)
    ensures Filter(p, xs + ys) == Filter(p, xs) + Filter(p, ys)
  {
    if xs == [] {
      assert xs + ys == ys;
    } else {
      assert (xs + ys)[1..] == xs[1..] + ys;
      FilterAppend(p, xs[1..], ys);
    }
  }

  /** Filtering a sorted list is sorting the filtered one. */
  lemma FilterSort<T(!new)>(less: (T, T) -> bool, p: T -> bool, xs: seq<T>)
    requires StrictTotalOn(less, xs) && Distinct(xs)
    ensures Filter(p, Sort(less, xs)) == Sort(less, Filter(p, xs))
  {
    hide StrictTotalOn, Sorted, Sort, Filter, Distinct;
    var kept, sorted := Filter(p, xs), Sort(less, xs);
    FilterMembers(p, xs);
    SortSorts(less, xs);
    SameMembers(sorted, xs);
    FilterMembers(p, sorted);
    FilterSorted(less, p, sorted);
    forall x ensures (x in kept ==> x in xs) && (x in Filter(p, sorted) <==> x in kept) {
      assert x in sorted <==> x in xs;
    }
    StrictTotalSubset(less, kept, xs);
    SortSorts(less, kept);
    SameMembers(Sort(less, kept), kept);
    forall x ensures (x in Sort(less, kept) ==> x in xs) && (x in Sort(less, kept) <==> x in Filter(p, sorted)) {
      assert x in Sort(less, kept) <==> x in kept;
    }
    StrictTotalSubset(less, Sort(less, kept), xs);
    SortedUnique(less, Sort(less, kept), Filter(p, sorted));
  }

  lemma DistinctParts<T>(xs: seq<T>, ys: seq<T>)
    requires Distinct(xs + ys)
    ensures Distinct(xs) && Distinct(ys)
  {
    var zs := xs + ys;
    forall i, j | 0 <= i < j < |xs| ensures xs[i] != xs[j] {
      assert zs[i] != zs[j];
    }
    forall i, j | 0 <= i < j < |ys| ensures ys[i] != ys[j] {
      assert zs[|xs| + i] != zs[|xs| + j];
    }
  }

  lemma DistinctAppend<T(!new)>(xs: seq<T>, ys: seq<T>)
    requires Distinct(xs) && Distinct(ys) && forall x :: x in xs ==> x !in ys
    ensures Distinct(xs + ys)
  {
    var zs := xs + ys;
    forall i, j | 0 <= i < j < |zs| ensures zs[i] != zs[j] {
      assert i < |xs| <= j ==> zs[i] in xs && zs[j] in ys;
    }
  }

  /** Two orders sort the same members alike if and only if they order every pair of them alike. */
  lemma SameOrderSameSort<T(!new)>(less: (T, T) -> bool, other: (T, T) -> bool, xs: seq<T>)
    requires StrictTotalOn(less, xs) && StrictTotalOn(other, xs) && Distinct(xs)
    ensures Sort(less, xs) == Sort(other, xs) <==>
      forall a, b :: a in xs && b in xs ==> (less(a, b) <==> other(a, b))
  {
    hide Sort, Distinct;
    var l, r := Sort(less, xs), Sort(other, xs);
    SortSorts(less, xs);
    SortSorts(other, xs);
    SameMembers(l, xs);
    SameMembers(r, xs);
    if l == r {
      forall a, b | a in xs && b in xs ensures less(a, b) <==> other(a, b) {
        SortedDecides(less, other, xs, l, a, b);
      }
    }
    if forall a, b :: a in xs && b in xs ==> (less(a, b) <==> other(a, b)) {
      forall i, j | 0 <= i < j < |r| ensures less(r[i], r[j]) {
        assert r[i] in xs && r[j] in xs;
      }
      StrictTotalSubset(less, l, xs);
      SortedUnique(less, l, r);
    }
  }

  lemma SortedDecides<T(!new)>(less: (T, T) -> bool, other: (T, T) -> bool, xs: seq<T>, sorted: seq<T>, a: T, b: T)
    requires StrictTotalOn(less, xs) && StrictTotalOn(other, xs)
    requires Sorted(less, sorted) && Sorted(other, sorted)
    requires a in xs && b in xs && a in sorted && b in sorted
    ensures less(a, b) <==> other(a, b)
  {
    var i :| 0 <= i < |sorted| && sorted[i] == a;
    var j :| 0 <= j < |sorted| && sorted[j] == b;
    if i < j {
      assert less(sorted[i], sorted[j]) && other(sorted[i], sorted[j]);
    } else if j < i {
      assert less(sorted[j], sorted[i]) && other(sorted[j], sorted[i]);
    }
  }

  lemma SortOfSorted<T(!new)>(less: (T, T) -> bool, xs: seq<T>)
    requires StrictTotalOn(less, xs) && Distinct(xs) && Sorted(less, xs)
    ensures Sort(less, xs) == xs
  {
    hide Sort, Distinct;
    SortSorts(less, xs);
    SameMembers(Sort(less, xs), xs);
    StrictTotalSubset(less, Sort(less, xs), xs);
    SortedUnique(less, Sort(less, xs), xs);
  }

  lemma SortOne<T(!new)>(less: (T, T) -> bool, x: T)
    ensures Sort(less, [x]) == [x]
  {
    SameMembers(Sort(less, [x]), [x]);
    assert Sort(less, [x])[0] in Sort(less, [x]);
  }

  lemma SortTwo<T(!new)>(less: (T, T) -> bool, x: T, y: T)
    requires less(x, y) != less(y, x)
    ensures Sort(less, [x, y]) == if less(x, y) then [x, y] else [y, x]
  {
    SortOne(less, x);
    assert [x, y][..1] == [x];
    assert Insert(less, y, [x]) == if less(y, x) then [y, x] else [x, y] by {
      assert [x][1..] == [];
      assert Insert(less, y, []) == [y];
    }
  }

  lemma {:induction false} FilterAll<T(!new)>(p: T -> bool, xs: seq<T>)
    requires forall x :: x in xs ==> p(x)
    ensures Filter(p, xs) == xs
  {
    if xs != [] {
      FilterAll(p, xs[1..]);
    }
  }

  lemma {:induction false} FilterNone<T(!new)>(p: T -> bool, xs: seq<T>)
    ensures Filter(p, xs) == [] <==> forall x :: x in xs ==> !p(x)
  {
    if xs != [] {
      FilterNone(p, xs[1..]);
      assert xs == [xs[0]] + xs[1..];
    }
  }

  lemma {:induction false} FilterShorter<T(!new)>(p: T -> bool, xs: seq<T>)
    ensures |Filter(p, xs)| == |xs| <==> forall x :: x in xs ==> p(x)
    ensures |Filter(p, xs)| <= |xs|
  {
    if xs != [] {
      FilterShorter(p, xs[1..]);
      assert xs == [xs[0]] + xs[1..];
    }
  }

  /**
   * Truncating before filtering is filtering before truncating if and only if nothing in the kept part is dropped, or
   * nothing beyond it would be kept.
   */
  lemma TruncateThenFilter<T(!new)>(p: T -> bool, xs: seq<T>, n: nat)
    ensures Filter(p, Take(n, xs)) == Take(n, Filter(p, xs)) <==>
      (forall x :: x in Take(n, xs) ==> p(x)) || (forall x :: x in xs[Min(n, |xs|)..] ==> !p(x))
  {
    hide Filter;
    var k := Min(n, |xs|);
    var kept, beyond := Filter(p, xs[..k]), Filter(p, xs[k..]);
    assert xs == xs[..k] + xs[k..] && Take(n, xs) == xs[..k];
    FilterAppend(p, xs[..k], xs[k..]);
    FilterShorter(p, xs[..k]);
    FilterShorter(p, xs[k..]);
    FilterNone(p, xs[k..]);
    if beyond == [] {
      assert kept + beyond == kept;
    } else if |kept| == k {
      assert k == n && (kept + beyond)[..n] == kept;
    } else {
      assert |Take(n, kept + beyond)| > |kept|;
    }
  }

  lemma {:induction false} SamePredicate<T(!new)>(p: T -> bool, q: T -> bool, xs: seq<T>)
    requires forall x :: p(x) == q(x)
    ensures Filter(p, xs) == Filter(q, xs)
  {
    if xs != [] {
      SamePredicate(p, q, xs[1..]);
    }
  }

  lemma {:induction false} FilterCompose<T(!new)>(p: T -> bool, q: T -> bool, both: T -> bool, xs: seq<T>)
    requires forall x :: both(x) == (p(x) && q(x))
    ensures Filter(q, Filter(p, xs)) == Filter(both, xs)
  {
    if xs != [] {
      FilterCompose(p, q, both, xs[1..]);
      if p(xs[0]) {
        assert ([xs[0]] + Filter(p, xs[1..]))[1..] == Filter(p, xs[1..]);
      }
    }
  }
}
