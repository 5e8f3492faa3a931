/**
 * The first k of a union, from the first k of its parts: merging truncated lists, as in the search command
 * (plugins/memory/src/cli.rs, build_search_response).
 */
module TopMerge {
  import opened Wrappers
  import opened Ordering

  /** The first k of what is kept are the first k of everything, unless something dropped precedes one of them. */
  lemma DroppedRowsDecide<T(!new)>(less: (T, T) -> bool, kept: seq<T>, dropped: seq<T>, k: nat)
    requires Distinct(kept + dropped) && StrictTotalOn(less, kept + dropped)
    requires dropped != [] ==> |kept| >= k
    ensures Take(k, Sort(less, kept)) == Take(k, Sort(less, kept + dropped)) <==>
      forall r, d :: r in Take(k, Sort(less, kept)) && d in dropped ==> less(r, d)
  {
    hide Sort, StrictTotalOn, Distinct;
    var sorted, all := Sort(less, kept), Sort(less, kept + dropped);
    if dropped == [] {
      assert kept + dropped == kept;
    } else {
      assert Take(k, sorted) == sorted[..k] && Take(k, all) == all[..k];
      if sorted[..k] == all[..k] {
        DroppedComeLater(less, kept, dropped, k);
      }
      if forall r, d :: r in sorted[..k] && d in dropped ==> less(r, d) {
        LaterMayBeDropped(less, kept, dropped, k);
      }
    }
  }

  lemma MergeMembers<T(!new)>(less: (T, T) -> bool, kept: seq<T>, dropped: seq<T>)
    requires Distinct(kept + dropped) && StrictTotalOn(less, kept + dropped)
    ensures var sorted, all := Sort(less, kept), Sort(less, kept + dropped);
      && Sorted(less, sorted) && Sorted(less, all) && |sorted| == |kept| && |all| == |kept| + |dropped|
      && (forall x :: x in sorted <==> x in kept)
      && (forall x :: x in all <==> x in kept || x in dropped)
      && (forall x :: x in dropped ==> x !in kept)
  {
    hide Sort, StrictTotalOn;
    var both := kept + dropped;
    assert forall x :: x in both <==> x in kept || x in dropped;
    assert forall i :: 0 <= i < |kept| ==> both[i] == kept[i];
    assert forall i :: 0 <= i < |dropped| ==> both[|kept| + i] == dropped[i];
    StrictTotalSubset(less, kept, both);
    SortSorts(less, kept);
    SortSorts(less, both);
    SameMembers(Sort(less, kept), kept);
    SameMembers(Sort(less, both), both);
  }

  lemma DroppedComeLater<T(!new)>(less: (T, T) -> bool, kept: seq<T>, dropped: seq<T>, k: nat)
    requires Distinct(kept + dropped) && StrictTotalOn(less, kept + dropped) && |kept| >= k
    requires Sort(less, kept)[..k] == Sort(less, kept + dropped)[..k]
    ensures forall r, d :: r in Sort(less, kept)[..k] && d in dropped ==> less(r, d)
  {
    hide Sort, StrictTotalOn, Distinct;
    MergeMembers(less, kept, dropped);
    var sorted, all := Sort(less, kept), Sort(less, kept + dropped);
    assert forall m :: 0 <= m < k ==> all[..k][m] == sorted[..k][m] && all[m] == sorted[m] && sorted[m] in kept;
    forall r, d | r in sorted[..k] && d in dropped ensures less(r, d) {
      var i :| 0 <= i < k && all[i] == r;
      assert d in all;
      var j :| 0 <= j < |all| && all[j] == d;
    }
  }

  lemma LaterMayBeDropped<T(!new)>(less: (T, T) -> bool, kept: seq<T>, dropped: seq<T>, k: nat)
    requires Distinct(kept + dropped) && StrictTotalOn(less, kept + dropped) && |kept| >= k
    requires forall r, d :: r in Sort(less, kept)[..k] && d in dropped ==> less(r, d)
    ensures Sort(less, kept)[..k] == Sort(less, kept + dropped)[..k]
  {
    hide Sort, StrictTotalOn, Distinct;
    MergeMembers(less, kept, dropped);
    var sorted, all := Sort(less, kept), Sort(less, kept + dropped);
    var first, rest := sorted[..k], sorted[k..] + dropped;
    assert sorted == first + sorted[k..];
    var tail := Sort(less, rest);
    RestSorts(less, kept, dropped, k);
    assert forall x :: x in rest <==> x in sorted[k..] || x in dropped;
    assert forall x :: x in tail <==> x in rest;
    forall i, j | 0 <= i < j < |first + tail| ensures less((first + tail)[i], (first + tail)[j]) {
      if i < k <= j {
        var x, y := first[i], tail[j - k];
        assert y in rest && x in first;
        if y in sorted[k..] {
          var m :| 0 <= m < |sorted| - k && sorted[k..][m] == y;
          assert sorted[i] == x && sorted[k + m] == y;
        }
      }
    }
    assert Sorted(less, first + tail);
    assert forall x :: x in first + tail <==> x in first || x in tail;
    forall x ensures x in all <==> x in first + tail {
      assert x in sorted <==> x in first || x in sorted[k..];
    }
    AllIsOrdered(less, kept, dropped);
    SortedUnique(less, all, first + tail);
    assert (first + tail)[..k] == first;
  }

  lemma AllIsOrdered<T(!new)>(less: (T, T) -> bool, kept: seq<T>, dropped: seq<T>)
    requires Distinct(kept + dropped) && StrictTotalOn(less, kept + dropped)
    ensures StrictTotalOn(less, Sort(less, kept + dropped))
  {
    hide Sort, StrictTotalOn, Distinct;
    SameMembers(Sort(less, kept + dropped), kept + dropped);
    StrictTotalSubset(less, Sort(less, kept + dropped), kept + dropped);
  }

  lemma RestSorts<T(!new)>(less: (T, T) -> bool, kept: seq<T>, dropped: seq<T>, k: nat)
    requires Distinct(kept + dropped) && StrictTotalOn(less, kept + dropped) && |kept| >= k
    ensures var rest := Sort(less, kept)[k..] + dropped;
      Sorted(less, Sort(less, rest)) && forall x :: x in Sort(less, rest) <==> x in rest
  {
    hide Sort, StrictTotalOn, Distinct, Sorted;
    var rest := Sort(less, kept)[k..] + dropped;
    RestIsDistinct(less, kept, dropped, k);
    StrictTotalSubset(less, rest, kept + dropped);
    SortSorts(less, rest);
    SameMembers(Sort(less, rest), rest);
  }

  lemma RestIsDistinct<T(!new)>(less: (T, T) -> bool, kept: seq<T>, dropped: seq<T>, k: nat)
    requires Distinct(kept + dropped) && StrictTotalOn(less, kept + dropped) && |kept| >= k
    ensures var rest := Sort(less, kept)[k..] + dropped;
      Distinct(rest) && forall x :: x in rest ==> x in kept + dropped
  {
    hide Sort, StrictTotalOn, Distinct;
    var sorted := Sort(less, kept);
    MergeMembers(less, kept, dropped);
    KeptSortIsDistinct(less, kept, dropped);
    assert sorted == sorted[..k] + sorted[k..];
    DistinctParts(kept, dropped);
    DistinctParts(sorted[..k], sorted[k..]);
    forall x | x in sorted[k..] ensures x in kept && x !in dropped {
      assert x in sorted;
    }
    DistinctAppend(sorted[k..], dropped);
  }

  lemma KeptSortIsDistinct<T(!new)>(less: (T, T) -> bool, kept: seq<T>, dropped: seq<T>)
    requires Distinct(kept + dropped) && StrictTotalOn(less, kept + dropped)
    ensures Distinct(Sort(less, kept))
  {
    hide Sort;
    MergeMembers(less, kept, dropped);
    var sorted := Sort(less, kept);
    assert forall x :: x in sorted ==> x in kept + dropped;
    SortedIsDistinct(less, sorted, kept + dropped);
  }

  lemma {:induction false} DistinctFits<T(!new)>(xs: seq<T>, ys: seq<T>)
    requires Distinct(xs) && forall x :: x in xs ==> x in ys
    ensures |xs| <= |ys|
  {
    if xs != [] {
      var x := xs[0];
      assert x in ys;
      var k :| 0 <= k < |ys| && ys[k] == x;
      var rest := ys[..k] + ys[k + 1..];
      forall y | y in xs[1..] ensures y in rest {
        var i :| 0 <= i < |xs| - 1 && xs[1..][i] == y;
        assert xs[i + 1] == y && y in ys;
        var j :| 0 <= j < |ys| && ys[j] == y;
        assert j != k;
        assert if j < k then rest[j] == y else rest[j - 1] == y;
      }
      DistinctFits(xs[1..], rest);
    }
  }

  /** k members of a list precede a row, so the row is not among the first k. */
  lemma TooLateForTop<T(!new)>(less: (T, T) -> bool, part: seq<T>, sorted: seq<T>, k: nat, r: T, d: T)
    requires Sorted(less, part) && Sorted(less, sorted) && StrictTotalOn(less, part + sorted) && Distinct(part)
    requires forall x :: x in Take(k, part) ==> x in sorted
    requires k < |part| && d in part[k..] && r in Take(k, sorted)
    ensures !less(d, r)
  {
    hide Distinct;
    var both := part + sorted;
    assert forall x :: x in both <==> x in part || x in sorted;
    assert part == part[..k] + part[k..];
    var i :| 0 <= i < k && i < |sorted| && sorted[i] == r;
    if less(d, r) {
      var m :| 0 <= m < |part| - k && part[k..][m] == d;
      assert part[k + m] == d && d in part;
      forall x | x in part[..k] ensures x in sorted[..i] {
        PrecedesTop(less, part, sorted, k, r, d, x, i);
      }
      DistinctParts(part[..k], part[k..]);
      DistinctFits(part[..k], sorted[..i]);
    }
  }

  lemma PrecedesTop<T(!new)>(less: (T, T) -> bool, part: seq<T>, sorted: seq<T>, k: nat, r: T, d: T, x: T, i: nat)
    requires Sorted(less, part) && Sorted(less, sorted) && StrictTotalOn(less, part + sorted)
    requires k <= |part| && d in part[k..] && x in part[..k] && x in sorted
    requires i < |sorted| && sorted[i] == r && less(d, r)
    ensures x in sorted[..i]
  {
    var both := part + sorted;
    assert forall y :: y in both <==> y in part || y in sorted;
    var a :| 0 <= a < k && part[a] == x;
    var m :| 0 <= m < |part| - k && part[k..][m] == d;
    assert part[k + m] == d && less(x, d);
    assert x in both && d in both && r in both;
    var j :| 0 <= j < |sorted| && sorted[j] == x;
    assert j > i ==> less(r, x);
  }

  function Kept<T>(a: seq<T>, b: seq<T>, k: nat): seq<T> {
    Take(k, a) + Take(k, b)
  }

  function Dropped<T>(a: seq<T>, b: seq<T>, k: nat): seq<T> {
    a[Min(k, |a|)..] + b[Min(k, |b|)..]
  }

  lemma KeptAndDropped<T(!new)>(a: seq<T>, b: seq<T>, k: nat)
    requires Distinct(a + b)
    ensures Distinct(Kept(a, b, k) + Dropped(a, b, k))
    ensures forall x :: x in a + b <==> x in Kept(a, b, k) + Dropped(a, b, k)
    ensures Dropped(a, b, k) != [] ==> |Kept(a, b, k)| >= k
  {
    var i, j := Min(k, |a|), Min(k, |b|);
    assert a == a[..i] + a[i..] && b == b[..j] + b[j..];
    var all := Kept(a, b, k) + Dropped(a, b, k);
    assert multiset(all) == multiset(a + b);
    SameMembers(all, a + b);
    DistinctMultiset(a + b, all);
  }

  lemma {:induction false} CountOnce<T(!new)>(xs: seq<T>, x: T)
    requires Distinct(xs)
    ensures multiset(xs)[x] <= 1
  {
    hide Distinct;
    if xs != [] {
      assert xs == [xs[0]] + xs[1..];
      DistinctCons(xs[0], xs[1..]);
      CountOnce(xs[1..], x);
    }
  }

  lemma DistinctMultiset<T(!new)>(xs: seq<T>, ys: seq<T>)
    requires Distinct(xs) && multiset(xs) == multiset(ys)
    ensures Distinct(ys)
  {
    forall i, j | 0 <= i < j < |ys| ensures ys[i] != ys[j] {
      CountOnce(xs, ys[i]);
      assert ys == ys[..i] + [ys[i]] + ys[i + 1..j] + [ys[j]] + ys[j + 1..];
    }
  }

  /** Merging two truncated lists gives the first k of the union if and only if every dropped row comes after them. */
  lemma MergeExactly<T(!new)>(less: (T, T) -> bool, a: seq<T>, b: seq<T>, k: nat)
    requires Distinct(a + b) && StrictTotalOn(less, a + b)
    ensures Take(k, Sort(less, Kept(a, b, k))) == Take(k, Sort(less, a + b)) <==>
      forall r, d :: r in Take(k, Sort(less, Kept(a, b, k))) && d in Dropped(a, b, k) ==> less(r, d)
  {
    hide Sort, StrictTotalOn, Distinct, Take, Kept, Dropped;
    KeptAndDropped(a, b, k);
    var all := Kept(a, b, k) + Dropped(a, b, k);
    StrictTotalSubset(less, all, a + b);
    SortDependsOnMembers(less, a + b, all);
    DroppedRowsDecide(less, Kept(a, b, k), Dropped(a, b, k), k);
  }

  /** Lists in the order they are merged by lose nothing: the first k of the union are in the first k of each. */
  lemma MergeOfSortedParts<T(!new)>(less: (T, T) -> bool, a: seq<T>, b: seq<T>, k: nat)
    requires Distinct(a + b) && StrictTotalOn(less, a + b) && Sorted(less, a) && Sorted(less, b)
    ensures Take(k, Sort(less, Kept(a, b, k))) == Take(k, Sort(less, a + b))
  {
    hide Sort, StrictTotalOn, Distinct, Kept, Dropped, Take;
    MergeExactly(less, a, b, k);
    forall r, d | r in Take(k, Sort(less, Kept(a, b, k))) && d in Dropped(a, b, k) ensures less(r, d) {
      DroppedIsLater(less, a, b, k, r, d);
    }
  }

  lemma DroppedIsLater<T(!new)>(less: (T, T) -> bool, a: seq<T>, b: seq<T>, k: nat, r: T, d: T)
    requires Distinct(a + b) && StrictTotalOn(less, a + b) && Sorted(less, a) && Sorted(less, b)
    requires r in Take(k, Sort(less, Kept(a, b, k))) && d in Dropped(a, b, k)
    ensures less(r, d)
  {
    hide Sort, Distinct;
    var kept, dropped := Kept(a, b, k), Dropped(a, b, k);
    var sorted := Sort(less, kept);
    KeptAndDropped(a, b, k);
    StrictTotalSubset(less, kept + dropped, a + b);
    MergeMembers(less, kept, dropped);
    assert r in sorted && r in kept;
    assert r in a + b && d in a + b && r != d;
    DistinctParts(a, b);
    forall x | x in sorted ensures x in a + b {
      assert x in kept + dropped;
    }
    StrictTotalSubset(less, a + sorted, a + b);
    StrictTotalSubset(less, b + sorted, a + b);
    if k < |a| && d in a[k..] {
      TooLateForTop(less, a, sorted, k, r, d);
    } else {
      TooLateForTop(less, b, sorted, k, r, d);
    }
  }

  /** What sorting the kept part and sorting everything give. */
  lemma SortedParts<T(!new)>(less: (T, T) -> bool, a: seq<T>, b: seq<T>, k: nat)
    requires Distinct(a + b) && StrictTotalOn(less, a + b)
    ensures var kept, all := Sort(less, Kept(a, b, k)), Sort(less, a + b);
      && Sorted(less, kept) && Sorted(less, all) && Distinct(all)
      && (forall x :: x in kept <==> x in Kept(a, b, k)) && (forall x :: x in all <==> x in a + b)
      && StrictTotalOn(less, all + kept)
      && (forall x :: x in Kept(a, b, k) ==> x in a + b)
      && (forall x :: x in Dropped(a, b, k) ==> x in a + b && x !in Kept(a, b, k))
  {
    hide Sort, Kept, Dropped, Distinct, StrictTotalOn;
    KeptAndDropped(a, b, k);
    var kept, all := Sort(less, Kept(a, b, k)), Sort(less, a + b);
    StrictTotalSubset(less, Kept(a, b, k) + Dropped(a, b, k), a + b);
    MergeMembers(less, Kept(a, b, k), Dropped(a, b, k));
    SortSorts(less, a + b);
    SameMembers(all, a + b);
    DistinctMultiset(a + b, all);
    StrictTotalSubset(less, all + kept, a + b);
  }

  /**
   * Merging two truncated lists gives the first k of the union if and only if each of these stands among the first k
   * of its own list.
   */
  lemma MergeExactWhen<T(!new)>(less: (T, T) -> bool, a: seq<T>, b: seq<T>, k: nat)
    requires Distinct(a + b) && StrictTotalOn(less, a + b)
    ensures Take(k, Sort(less, Kept(a, b, k))) == Take(k, Sort(less, a + b)) <==>
      forall x :: x in Take(k, Sort(less, a + b)) ==> x in Kept(a, b, k)
  {
    hide Sort, Kept, Dropped, Distinct, StrictTotalOn, Sorted;
    var kept, all := Sort(less, Kept(a, b, k)), Sort(less, a + b);
    SortedParts(less, a, b, k);
    MergeExactly(less, a, b, k);
    assert forall x :: x in Take(k, kept) ==> x in kept;
    if forall x :: x in Take(k, all) ==> x in Kept(a, b, k) {
      forall r, d | r in Take(k, kept) && d in Dropped(a, b, k) ensures less(r, d) {
        BehindTheTop(less, a, b, k, r, d);
      }
    }
  }

  lemma BehindTheTop<T(!new)>(less: (T, T) -> bool, a: seq<T>, b: seq<T>, k: nat, r: T, d: T)
    requires Distinct(a + b) && StrictTotalOn(less, a + b)
    requires forall x :: x in Take(k, Sort(less, a + b)) ==> x in Kept(a, b, k)
    requires r in Take(k, Sort(less, Kept(a, b, k))) && d in Dropped(a, b, k)
    ensures less(r, d)
  {
    hide Sort, Kept, Dropped, Distinct, StrictTotalOn, Sorted;
    var kept, all := Sort(less, Kept(a, b, k)), Sort(less, a + b);
    SortedParts(less, a, b, k);
    assert d in all && d !in Take(k, all) && r in kept;
    assert all == Take(k, all) + all[Min(k, |all|)..];
    TooLateForTop(less, all, kept, k, r, d);
    TotalPair(less, a + b, r, d);
  }

  lemma TotalPair<T(!new)>(less: (T, T) -> bool, xs: seq<T>, x: T, y: T)
    requires StrictTotalOn(less, xs) && x in xs && y in xs
    ensures x == y || less(x, y) || less(y, x)
  {
  }

  /** No element stands later in its own list than in the union. */
  ghost predicate NoneSinks<T(!new)>(own: seq<T>, all: seq<T>) {
    forall i, t :: 0 <= i < |own| && 0 <= t < |all| && own[i] == all[t] ==> i <= t
  }

  /** Merging is exact at every limit if and only if no element stands later in its own list than in the union. */
  lemma MergeExactAtEveryLimit<T(!new)>(less: (T, T) -> bool, a: seq<T>, b: seq<T>)
    requires Distinct(a + b) && StrictTotalOn(less, a + b)
    ensures (forall k: nat :: Take(k, Sort(less, Kept(a, b, k))) == Take(k, Sort(less, a + b))) <==>
      NoneSinks(a, Sort(less, a + b)) && NoneSinks(b, Sort(less, a + b))
  {
    hide Sort, Distinct, StrictTotalOn, Kept;
    var all := Sort(less, a + b);
    forall k: nat
      ensures Take(k, Sort(less, Kept(a, b, k))) == Take(k, all) <==> TopIsKept(a, b, all, k)
    {
      MergeExactWhen(less, a, b, k);
    }
    SortedParts(less, a, b, 0);
    KeptAtEveryLimit(a, b, all);
  }

  ghost predicate TopIsKept<T(!new)>(a: seq<T>, b: seq<T>, all: seq<T>, k: nat) {
    forall x :: x in Take(k, all) ==> x in Kept(a, b, k)
  }

  lemma KeptAtEveryLimit<T(!new)>(a: seq<T>, b: seq<T>, all: seq<T>)
    requires Distinct(a + b) && Distinct(all) && forall x :: x in all <==> x in a + b
    ensures (forall k: nat :: TopIsKept(a, b, all, k)) <==> NoneSinks(a, all) && NoneSinks(b, all)
  {
    if forall k: nat :: TopIsKept(a, b, all, k) {
      forall i, t | 0 <= t < |all| ensures
        && (0 <= i < |a| && a[i] == all[t] ==> i <= t) && (0 <= i < |b| && b[i] == all[t] ==> i <= t)
      {
        assert TopIsKept(a, b, all, t + 1);
        assert Take(t + 1, all)[t] == all[t] && all[t] in Take(t + 1, all);
        KeptPlace(a, b, all[t], t + 1);
      }
    }
    if NoneSinks(a, all) && NoneSinks(b, all) {
      forall k: nat, x | x in Take(k, all) ensures x in Kept(a, b, k) {
        var t :| 0 <= t < |Take(k, all)| && all[t] == x;
        assert x in a + b;
        if x in a {
          var i :| 0 <= i < |a| && a[i] == x;
          assert Take(k, a)[i] == x;
        } else {
          var i :| 0 <= i < |b| && b[i] == x;
          assert Take(k, b)[i] == x;
        }
      }
    }
  }

  /** A kept element stands among the first k of its own list. */
  lemma KeptPlace<T(!new)>(a: seq<T>, b: seq<T>, x: T, k: nat)
    requires Distinct(a + b) && x in Kept(a, b, k)
    ensures forall i :: 0 <= i < |a| && a[i] == x ==> i < k
    ensures forall i :: 0 <= i < |b| && b[i] == x ==> i < k
  {
    var both := a + b;
    assert forall i :: 0 <= i < |a| ==> both[i] == a[i];
    assert forall i :: 0 <= i < |b| ==> both[|a| + i] == b[i];
    if x in Take(k, a) {
      var j :| 0 <= j < |Take(k, a)| && a[j] == x;
      assert both[j] == x;
    } else {
      var j :| 0 <= j < |Take(k, b)| && b[j] == x;
      assert both[|a| + j] == x;
    }
  }
}
