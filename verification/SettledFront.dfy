/**
 * The part of the visiting order that finished batches have settled (plugins/memory/src/consolidator.rs): with a
 * symmetric similarity its order no longer matters to the clustering.
 */
module SettledFront {
  import opened Candidates
  import opened SimpleStrategy
  import opened Clusters
  import opened ClusterFacts
  import opened Confluence
  import opened BoundedBatches

  ghost predicate Symmetric(rule: Rule) {
    forall a, b :: rule.reaches(a, b) == rule.reaches(b, a)
  }

  lemma LinksBothWays(rule: Rule, a: Candidate, b: Candidate)
    requires Symmetric(rule)
    ensures Links(rule, a, b) == Links(rule, b, a)
  {
  }

  /** The leaders up to the last one that the first m pairs touch. */
  function Front(rule: Rule, xs: seq<Candidate>, m: nat): seq<Candidate>
    requires m <= |Pairs(rule, xs)|
    decreases |xs|
  {
    if m == 0 then []
    else
      var linked, free := Linked(rule, xs[0], xs[1..]), Unlinked(rule, xs[0], xs[1..]);
      if m <= |linked| then [xs[0]] else [xs[0]] + Front(rule, free, m - |linked|)
  }

  /** The candidates behind them that are not consumed. */
  function Back(rule: Rule, xs: seq<Candidate>, m: nat): seq<Candidate>
    requires m <= |Pairs(rule, xs)|
    decreases |xs|
  {
    if m == 0 then xs
    else
      var linked, free := Linked(rule, xs[0], xs[1..]), Unlinked(rule, xs[0], xs[1..]);
      if m <= |linked| then Without(FirstSources(rule, xs, m), xs[1..]) else Back(rule, free, m - |linked|)
  }

  lemma {:induction false} WithoutAllLinked(rule: Rule, gone: set<MemoryId>, l: Candidate, xs: seq<Candidate>)
    requires Without(gone, Linked(rule, l, xs)) == []
    ensures Without(gone, xs) == Without(gone, Unlinked(rule, l, xs))
  {
    hide Links;
    if xs != [] {
      var linked := Linked(rule, l, xs[1..]);
      if Links(rule, l, xs[0]) {
        WithoutCons(gone, xs[0], linked);
      }
      WithoutAllLinked(rule, gone, l, xs[1..]);
    }
  }

  /** Without the first m sources the order is the front, then the back. */
  lemma {:induction false} FrontThenBack(rule: Rule, xs: seq<Candidate>, m: nat)
    requires DistinctIds(xs) && m <= |Pairs(rule, xs)|
    ensures Without(FirstSources(rule, xs, m), xs) == Front(rule, xs, m) + Back(rule, xs, m)
    decreases |xs|
  {
    hide Links, Linked, Unlinked, DistinctIds, FirstSources, Pairs, Without;
    if m == 0 {
      NoSources(rule, xs);
      WithoutNothing(FirstSources(rule, xs, 0), xs);
    } else {
      PairsNeedCandidates(rule, xs);
      var l, rest, gone := xs[0], xs[1..], FirstSources(rule, xs, m);
      var linked, free := Linked(rule, l, rest), Unlinked(rule, l, rest);
      assert xs == [l] + rest;
      DistinctIdsTail(rule, xs);
      FirstSourcesSplit(rule, xs, m);
      LeaderStays(rule, xs, m);
      WithoutCons(gone, l, rest);
      if m > |linked| {
        GoneFromRest(rule, l, rest, m - |linked|);
        WithoutAllLinked(rule, gone, l, rest);
        FrontThenBack(rule, free, m - |linked|);
        assert [l] + (Front(rule, free, m - |linked|) + Back(rule, free, m - |linked|))
          == ([l] + Front(rule, free, m - |linked|)) + Back(rule, free, m - |linked|);
      }
    }
  }

  lemma NoSources(rule: Rule, xs: seq<Candidate>)
    ensures FirstSources(rule, xs, 0) == {}
  {
  }

  lemma PairsNeedCandidates(rule: Rule, xs: seq<Candidate>)
    ensures xs == [] ==> Pairs(rule, xs) == []
  {
  }

  lemma {:induction false} FrontAndBackMembers(rule: Rule, xs: seq<Candidate>, m: nat)
    requires m <= |Pairs(rule, xs)|
    ensures forall x :: x in Front(rule, xs, m) || x in Back(rule, xs, m) ==> x in xs
    ensures m > 0 ==> Front(rule, xs, m) != []
    decreases |xs|
  {
    hide Links, Linked, Unlinked, FirstSources, Pairs, Without;
    if m > 0 {
      PairsNeedCandidates(rule, xs);
      var linked, free := Linked(rule, xs[0], xs[1..]), Unlinked(rule, xs[0], xs[1..]);
      LinkedMembers(rule, xs[0], xs[1..]);
      FirstSourcesSplit(rule, xs, m);
      if m > |linked| {
        FrontAndBackMembers(rule, free, m - |linked|);
      } else {
        WithoutMembers(FirstSources(rule, xs, m), xs[1..]);
      }
    }
  }

  /** Every survivor of the first m pairs is in the front. */
  lemma {:induction false} SurvivorsAreInFront(rule: Rule, xs: seq<Candidate>, m: nat, i: nat)
    requires i < m <= |Pairs(rule, xs)|
    ensures exists l :: l in Front(rule, xs, m) && l.memory.id == Pairs(rule, xs)[i].0
    decreases |xs|
  {
    hide Links, Linked, Unlinked, FirstSources, Pairs, Ids;
    PairsNeedCandidates(rule, xs);
    var l, rest := xs[0], xs[1..];
    var linked, free := Linked(rule, l, rest), Unlinked(rule, l, rest);
    assert xs == [l] + rest;
    PairsFirst(rule, l, rest);
    assert l in Front(rule, xs, m);
    if i >= |linked| {
      SurvivorsAreInFront(rule, free, m - |linked|, i - |linked|);
      var s :| s in Front(rule, free, m - |linked|) && s.memory.id == Pairs(rule, free)[i - |linked|].0;
      assert s in Front(rule, xs, m);
    }
  }

  /** Nobody in the front is linked to another, and only its last links to anything behind. */
  ghost predicate Quiet(rule: Rule, front: seq<Candidate>, back: seq<Candidate>) {
    && (forall i, j :: 0 <= i < |front| && 0 <= j < |front| && i != j ==> !Links(rule, front[i], front[j]))
    && (forall i, y :: 0 <= i < |front| - 1 && y in back ==> !Links(rule, front[i], y))
  }

  lemma QuietCons(rule: Rule, l: Candidate, front: seq<Candidate>, back: seq<Candidate>)
    requires Symmetric(rule) && Quiet(rule, front, back) && front != []
    requires forall x :: x in front || x in back ==> !Links(rule, l, x)
    ensures Quiet(rule, [l] + front, back)
  {
    hide Links;
    var all := [l] + front;
    forall i, j | 0 <= i < |all| && 0 <= j < |all| && i != j ensures !Links(rule, all[i], all[j]) {
      LinksBothWays(rule, all[i], all[j]);
      if i == 0 {
        assert all[j] in front;
      } else if j == 0 {
        assert all[i] in front;
      }
    }
  }

  lemma {:induction false} FrontIsQuiet(rule: Rule, xs: seq<Candidate>, m: nat)
    requires Symmetric(rule) && m <= |Pairs(rule, xs)|
    ensures Quiet(rule, Front(rule, xs, m), Back(rule, xs, m))
    decreases |xs|
  {
    hide Links, Linked, Unlinked, FirstSources, Pairs, Quiet;
    if m == 0 {
      FewAreQuiet(rule, [], xs);
    } else {
      PairsNeedCandidates(rule, xs);
      var l := xs[0];
      var linked, free := Linked(rule, l, xs[1..]), Unlinked(rule, l, xs[1..]);
      FirstSourcesSplit(rule, xs, m);
      if m <= |linked| {
        FewAreQuiet(rule, [l], Back(rule, xs, m));
      } else {
        var n := m - |linked|;
        FrontIsQuiet(rule, free, n);
        FrontAndBackMembers(rule, free, n);
        LinkedMembers(rule, l, xs[1..]);
        QuietCons(rule, l, Front(rule, free, n), Back(rule, free, n));
      }
    }
  }

  lemma FewAreQuiet(rule: Rule, front: seq<Candidate>, back: seq<Candidate>)
    requires |front| <= 1
    ensures Quiet(rule, front, back)
  {
  }

  // ----- the order of a quiet front does not matter

  lemma {:induction false} LinkedAppend(rule: Rule, l: Candidate, xs: seq<Candidate>, ys: seq<Candidate>)
    ensures Linked(rule, l, xs + ys) == Linked(rule, l, xs) + Linked(rule, l, ys)
    ensures Unlinked(rule, l, xs + ys) == Unlinked(rule, l, xs) + Unlinked(rule, l, ys)
  {
    hide Links;
    if xs == [] {
      assert xs + ys == ys;
    } else {
      assert (xs + ys)[1..] == xs[1..] + ys;
      LinkedAppend(rule, l, xs[1..], ys);
    }
  }

  lemma {:induction false} NothingLinked(rule: Rule, l: Candidate, xs: seq<Candidate>)
    requires forall x :: x in xs ==> !Links(rule, l, x)
    ensures Linked(rule, l, xs) == [] && Unlinked(rule, l, xs) == xs
  {
    hide Links;
    if xs != [] {
      assert xs[0] in xs;
      NothingLinked(rule, l, xs[1..]);
    }
  }

  /** Members that link to nobody: pairwise unlinked, and unlinked to what stands behind. */
  ghost predicate Silent(rule: Rule, front: seq<Candidate>, back: seq<Candidate>) {
    && (forall i, j :: 0 <= i < j < |front| ==> !Links(rule, front[i], front[j]))
    && (forall x, y :: x in front && y in back ==> !Links(rule, x, y))
  }

  lemma {:induction false} SilentPairs(rule: Rule, front: seq<Candidate>, back: seq<Candidate>)
    requires Silent(rule, front, back)
    ensures Pairs(rule, front + back) == Pairs(rule, back)
    decreases |front|
  {
    hide Links, Linked, Unlinked, Pairs;
    if front == [] {
      assert front + back == back;
    } else {
      var l, rest := front[0], front[1..];
      assert front + back == [l] + (rest + back);
      assert l in front;
      forall x | x in rest + back ensures !Links(rule, l, x) {
        if x in rest {
          var k :| 0 <= k < |rest| && rest[k] == x;
          assert front[k + 1] == x;
        }
      }
      NothingLinked(rule, l, rest + back);
      PairsFirst(rule, l, rest + back);
      NoIds();
      SilentPairs(rule, rest, back);
      assert PairUp(l.memory.id, Ids([])) + Pairs(rule, rest + back) == Pairs(rule, rest + back);
    }
  }

  /** In any order, a front whose members are unlinked contributes the pairs of its one speaker. */
  lemma {:induction false} SpeakerPairs(rule: Rule, front: seq<Candidate>, s: nat, back: seq<Candidate>)
    requires s < |front| && DistinctIds(front)
    requires forall i, j :: 0 <= i < |front| && 0 <= j < |front| && i != j ==> !Links(rule, front[i], front[j])
    requires forall i, y :: 0 <= i < |front| && i != s && y in back ==> !Links(rule, front[i], y)
    ensures Pairs(rule, front + back) ==
      PairUp(front[s].memory.id, Ids(Linked(rule, front[s], back))) + Pairs(rule, Unlinked(rule, front[s], back))
    decreases s
  {
    hide Links, Linked, Unlinked, Pairs, DistinctIds, Ids;
    var l, rest := front[0], front[1..];
    assert front + back == [l] + (rest + back);
    assert forall k :: 0 <= k < |rest| ==> rest[k] == front[k + 1];
    PairsFirst(rule, l, rest + back);
    LinkedAppend(rule, l, rest, back);
    NothingLinked(rule, l, rest);
    if s == 0 {
      LinkedMembers(rule, l, back);
      assert [] + Linked(rule, l, back) == Linked(rule, l, back);
      SilentPairs(rule, rest, Unlinked(rule, l, back));
    } else {
      NothingLinked(rule, l, back);
      NoIds();
      DistinctIdsTail(rule, front);
      SpeakerPairs(rule, rest, s - 1, back);
      assert PairUp(l.memory.id, Ids([])) + Pairs(rule, rest + back) == Pairs(rule, rest + back);
    }
  }

  /** A quiet front may be reordered: the clustering has the same pairs, in the same order. */
  lemma ReorderedFront(rule: Rule, front: seq<Candidate>, other: seq<Candidate>, back: seq<Candidate>)
    requires Quiet(rule, front, back) && DistinctIds(front) && DistinctIds(other)
    requires forall x :: x in front <==> x in other
    ensures Pairs(rule, other + back) == Pairs(rule, front + back)
  {
    hide Links, Pairs, Ids;
    assert other != [] ==> other[0] in front;
    if front != [] {
      var last := front[|front| - 1];
      assert last in front;
      var s :| 0 <= s < |other| && other[s] == last;
      forall i, j | 0 <= i < |other| && 0 <= j < |other| && i != j ensures !Links(rule, other[i], other[j]) {
        assert other[i] in front && other[j] in front;
      }
      forall i, y | 0 <= i < |other| && i != s && y in back ensures !Links(rule, other[i], y) {
        assert other[i] in front;
      }
      SpeakerPairs(rule, front, |front| - 1, back);
      SpeakerPairs(rule, other, s, back);
    }
  }
}
