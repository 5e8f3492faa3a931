/**
 * When the merged search response is the first of both rankings, and when it is one ranking of all memories
 * (plugins/memory/src/cli.rs, build_search_response; plugins/memory/src/storage/sqlite_store.rs, the ranking).
 */
module SearchExactness {
  import opened Wrappers
  import opened Ordering
  import opened Ranking
  import opened TopMerge
  import opened SearchMerge

  // ----- ties that the results do not show

  /** Two candidates with equal ranking score and similarity that the total score, unseen in the results, separates. */
  ghost predicate HiddenTie(s: Scoring, candidates: seq<Row>, a: Row, b: Row) {
    && a in candidates && b in candidates && a != b
    && RankingScore(s, Best(s, candidates), a) == RankingScore(s, Best(s, candidates), b)
    && s.similarity(a) == s.similarity(b) && s.total(a) != s.total(b)
  }

  /** The store puts a first for its total score, the command b for its update time or id. */
  ghost predicate Misplaced(s: Scoring, candidates: seq<Row>, a: Row, b: Row) {
    HiddenTie(s, candidates, a, b) && s.total(a) > s.total(b) && Newer(b, a)
  }

  ghost predicate NothingMisplaced(s: Scoring, candidates: seq<Row>) {
    forall a, b :: !Misplaced(s, candidates, a, b)
  }

  lemma MisplacedIsUnsorted(s: Scoring, candidates: seq<Row>, a: Row, b: Row)
    requires Distinct(candidates) && KeyedById(candidates) && Misplaced(s, candidates, a, b)
    ensures !Sorted(ByResult(), Results(s, candidates))
  {
    hide Sort, Best, RankingScore, Results, StrictTotalOn;
    ResultsAreRows(s, candidates);
    SameMembers(Ranked(s, candidates), candidates);
    var ranked, best, results := Ranked(s, candidates), Best(s, candidates), Results(s, candidates);
    var i :| 0 <= i < |ranked| && ranked[i] == a;
    var j :| 0 <= j < |ranked| && ranked[j] == b;
    assert !RankedBefore(s, best, b, a);
    RankedEarlier(s, candidates, i, j);
    ResultAt(s, candidates, i);
    ResultAt(s, candidates, j);
    assert !ByResult()(results[i], results[j]);
  }

  lemma ResultAt(s: Scoring, candidates: seq<Row>, i: nat)
    requires i < |candidates|
    ensures |Ranked(s, candidates)| == |Results(s, candidates)| == |candidates|
    ensures Results(s, candidates)[i] == Score(s, Best(s, candidates), Ranked(s, candidates)[i])
  {
    hide Sort, Best, Score;
  }

  lemma RankedEarlier(s: Scoring, candidates: seq<Row>, i: nat, j: nat)
    requires Distinct(candidates) && KeyedById(candidates) && i < |candidates| && j < |candidates|
    requires |Ranked(s, candidates)| == |candidates| && Ranked(s, candidates)[i] != Ranked(s, candidates)[j]
    requires !RankedBefore(s, Best(s, candidates), Ranked(s, candidates)[j], Ranked(s, candidates)[i])
    ensures i < j
  {
    hide Sort, Best, RankedBefore;
    if j < i {
      RankedPair(s, candidates, j, i);
    }
  }

  /** The store's ranking is in the order of the results if and only if no tie is misplaced. */
  lemma RankedResultsAreSorted(s: Scoring, candidates: seq<Row>)
    requires Distinct(candidates) && KeyedById(candidates)
    ensures Sorted(ByResult(), Results(s, candidates)) <==> NothingMisplaced(s, candidates)
  {
    hide Sort, Best, RankingScore, Results, Ranked, Misplaced, ResultBefore;
    if NothingMisplaced(s, candidates) {
      ResultsAreRows(s, candidates);
      forall i, j | 0 <= i < j < |candidates| ensures ResultBefore(Results(s, candidates)[i], Results(s, candidates)[j]) {
        PlacedPair(s, candidates, i, j);
      }
    }
    forall a, b | Misplaced(s, candidates, a, b) ensures !Sorted(ByResult(), Results(s, candidates)) {
      MisplacedIsUnsorted(s, candidates, a, b);
    }
  }

  lemma PlacedPair(s: Scoring, candidates: seq<Row>, i: nat, j: nat)
    requires Distinct(candidates) && KeyedById(candidates) && NothingMisplaced(s, candidates) && i < j < |candidates|
    ensures |Results(s, candidates)| == |candidates|
    ensures ResultBefore(Results(s, candidates)[i], Results(s, candidates)[j])
  {
    hide Sort, Best, RankingScore, Results, Ranked;
    RankedPair(s, candidates, i, j);
    ResultAt(s, candidates, i);
    ResultAt(s, candidates, j);
    assert !Misplaced(s, candidates, Ranked(s, candidates)[i], Ranked(s, candidates)[j]);
  }

  lemma RankedPair(s: Scoring, candidates: seq<Row>, i: nat, j: nat)
    requires Distinct(candidates) && KeyedById(candidates) && i < j < |candidates|
    ensures |Ranked(s, candidates)| == |candidates|
    ensures var a, b := Ranked(s, candidates)[i], Ranked(s, candidates)[j];
      a in candidates && b in candidates && a.id != b.id && RankedBefore(s, Best(s, candidates), a, b)
  {
    hide Sort, Best, RankedBefore;
    ResultsAreRows(s, candidates);
    var ranked := Ranked(s, candidates);
    SameMembers(ranked, candidates);
    assert ByRank(s, Best(s, candidates))(ranked[i], ranked[j]);
    assert ranked[i] in ranked && ranked[j] in ranked;
    RankedBeforeIsTotal(s, Best(s, candidates), ranked[i], ranked[i], ranked[i]);
  }

  /** A list none of whose members sinks under sorting is sorted. */
  lemma NoneSinksExactly<T(!new)>(less: (T, T) -> bool, xs: seq<T>)
    requires Distinct(xs) && StrictTotalOn(less, xs)
    ensures NoneSinks(xs, Sort(less, xs)) <==> Sorted(less, xs)
  {
    hide Sort, StrictTotalOn;
    var sorted := Sort(less, xs);
    SortSorts(less, xs);
    SameMembers(sorted, xs);
    DistinctMultiset(xs, sorted);
    if Sorted(less, xs) {
      SortOfSorted(less, xs);
    }
    if NoneSinks(xs, sorted) {
      SamePlaces(xs, sorted, |xs|);
      assert xs == sorted;
    }
  }

  lemma {:induction false} SamePlaces<T(!new)>(xs: seq<T>, sorted: seq<T>, n: nat)
    requires Distinct(xs) && Distinct(sorted) && |xs| == |sorted| && NoneSinks(xs, sorted) && n <= |xs|
    requires forall x :: x in xs <==> x in sorted
    ensures xs[..n] == sorted[..n]
  {
    if n > 0 {
      SamePlaces(xs, sorted, n - 1);
      var m := n - 1;
      assert forall p :: 0 <= p < m ==> xs[..m][p] == sorted[..m][p] && xs[p] == sorted[p];
      assert sorted[m] in xs;
      var j :| 0 <= j < |xs| && xs[j] == sorted[m];
      assert xs[..n] == xs[..m] + [xs[m]] && sorted[..n] == sorted[..m] + [sorted[m]];
    }
  }

  /** The response shows the first of both rankings. */
  ghost predicate Exact(s: Scoring, active: seq<Row>, dormant: seq<Row>, limit: nat) {
    Response(s, active, dormant, limit, true) == Take(limit, Sort(ByResult(), Results(s, active) + Results(s, dormant)))
  }

  /**
   * Without dormant rows the response is exact at every limit if and only if no two active rows tie in score and
   * similarity while the total score prefers the one and the update time and id the other.
   */
  lemma OneListExactly(s: Scoring, active: seq<Row>)
    requires Distinct(active) && KeyedById(active)
    ensures (forall limit: nat :: Exact(s, active, [], limit)) <==> NothingMisplaced(s, active)
  {
    hide Results, Sort, StrictTotalOn, NothingMisplaced, Distinct, Sorted, NoneSinks;
    assert active + [] == active;
    assert Results(s, []) == [] by { NoResults(s); }
    var a := Results(s, active);
    assert a + [] == a;
    ResultsAreOneList(s, active, []);
    RankedResultsAreSorted(s, active);
    NoneSinksExactly(ByResult(), a);
    MergeExactAtEveryLimit(ByResult(), a, []);
    EmptyNeverSinks(Sort(ByResult(), a));
    forall limit: nat ensures Exact(s, active, [], limit) <==>
      Take(limit, Sort(ByResult(), Kept(a, [], limit))) == Take(limit, Sort(ByResult(), a + [])) {
    }
  }

  lemma NoResults(s: Scoring)
    ensures Results(s, []) == []
  {
  }

  lemma EmptyNeverSinks<T(!new)>(all: seq<T>)
    ensures NoneSinks([], all)
  {
  }

  /**
   * With dormant rows the response is exact at every limit if and only if no result stands later in its own ranking
   * than in the merged one.
   */
  lemma TwoListsExactly(s: Scoring, active: seq<Row>, dormant: seq<Row>)
    requires OneTable(active, dormant)
    ensures var all := Sort(ByResult(), Results(s, active) + Results(s, dormant));
      (forall limit: nat :: Exact(s, active, dormant, limit)) <==>
        NoneSinks(Results(s, active), all) && NoneSinks(Results(s, dormant), all)
  {
    hide Results, Sort, StrictTotalOn, Distinct, NoneSinks;
    ResultsAreOneList(s, active, dormant);
    MergeExactAtEveryLimit(ByResult(), Results(s, active), Results(s, dormant));
    forall limit: nat ensures Exact(s, active, dormant, limit) <==>
      Take(limit, Sort(ByResult(), Kept(Results(s, active), Results(s, dormant), limit)))
        == Take(limit, Sort(ByResult(), Results(s, active) + Results(s, dormant))) {
    }
  }

  /** It is enough that neither list misplaces a tie. */
  lemma ResponseIsExact(s: Scoring, active: seq<Row>, dormant: seq<Row>, limit: nat)
    requires OneTable(active, dormant) && NothingMisplaced(s, active) && NothingMisplaced(s, dormant)
    ensures Exact(s, active, dormant, limit)
  {
    hide Results, Sort, Kept, Distinct, StrictTotalOn, NothingMisplaced, Take;
    PartsAreKeyed(active, dormant);
    RankedResultsAreSorted(s, active);
    RankedResultsAreSorted(s, dormant);
    ResultsAreOneList(s, active, dormant);
    MergeOfSortedParts(ByResult(), Results(s, active), Results(s, dormant), limit);
  }

  // ----- one ranking of all memories

  function RowsOf(results: seq<Scored>): (rows: seq<Row>)
    ensures |rows| == |results| && forall i :: 0 <= i < |rows| ==> rows[i] == results[i].row
  {
    seq(|results|, i requires 0 <= i < |results| => results[i].row)
  }

  /** A row as its own search scores it. */
  function Own(s: Scoring, active: seq<Row>, dormant: seq<Row>, row: Row): Scored {
    Score(s, if row in active then Best(s, active) else Best(s, dormant), row)
  }

  /** The order of the merged results, on rows. */
  predicate MergedBefore(s: Scoring, active: seq<Row>, dormant: seq<Row>, a: Row, b: Row) {
    ResultBefore(Own(s, active, dormant, a), Own(s, active, dormant, b))
  }

  function ByMerged(s: Scoring, active: seq<Row>, dormant: seq<Row>): (Row, Row) -> bool {
    (a, b) => MergedBefore(s, active, dormant, a, b)
  }

  /** The command's order and the store's single ranking order every pair of memories alike. */
  ghost predicate OrdersAgree(s: Scoring, active: seq<Row>, dormant: seq<Row>) {
    forall a, b :: a in active + dormant && b in active + dormant ==>
      (MergedBefore(s, active, dormant, a, b) <==> RankedBefore(s, Best(s, active + dormant), a, b))
  }

  /** The response shows the first of one ranking of all memories. */
  ghost predicate OneRanking(s: Scoring, active: seq<Row>, dormant: seq<Row>, limit: nat) {
    RowsOf(Response(s, active, dormant, limit, true)) == Take(limit, Ranked(s, active + dormant))
  }

  lemma ResultsAreOwn(s: Scoring, active: seq<Row>, dormant: seq<Row>)
    requires OneTable(active, dormant)
    ensures forall r :: r in Results(s, active) + Results(s, dormant) ==>
      r.row in active + dormant && r == Own(s, active, dormant, r.row)
  {
    hide Results, Score, Best, Distinct;
    PartsAreKeyed(active, dormant);
    ResultsAreRows(s, active);
    ResultsAreRows(s, dormant);
    NoRowTwice(active, dormant);
    forall r | r in Results(s, active) + Results(s, dormant)
      ensures r.row in active + dormant && r == Own(s, active, dormant, r.row)
    {
      assert r in Results(s, active) || r in Results(s, dormant);
    }
  }

  lemma MergedIsTotal(s: Scoring, active: seq<Row>, dormant: seq<Row>)
    requires OneTable(active, dormant)
    ensures StrictTotalOn(ByMerged(s, active, dormant), active + dormant)
  {
    hide Score, Best;
    forall a: Row | a in active + dormant ensures Own(s, active, dormant, a).row == a {
      ScoreKeepsRow(s, if a in active then Best(s, active) else Best(s, dormant), a);
    }
  }

  /** The rows of the merged results are all memories, in the merged order. */
  lemma MergedRows(s: Scoring, active: seq<Row>, dormant: seq<Row>)
    requires OneTable(active, dormant)
    ensures RowsOf(Sort(ByResult(), Results(s, active) + Results(s, dormant)))
      == Sort(ByMerged(s, active, dormant), active + dormant)
  {
    hide Results, Sort, Own, StrictTotalOn, OneTable, RowsOf, Distinct;
    var u, rows := Results(s, active) + Results(s, dormant), active + dormant;
    var merged := Sort(ByResult(), u);
    var shown, sorted := RowsOf(merged), Sort(ByMerged(s, active, dormant), rows);
    ResultsAreOneList(s, active, dormant);
    ResultsAreOwn(s, active, dormant);
    SortSorts(ByResult(), u);
    SameMembers(merged, u);
    MergedIsTotal(s, active, dormant);
    SortSorts(ByMerged(s, active, dormant), rows) by { assert OneTable(active, dormant) ==> Distinct(rows) by { TableIsDistinct(active, dormant); } }
    SameMembers(sorted, rows);
    forall i, j | 0 <= i < j < |shown| ensures ByMerged(s, active, dormant)(shown[i], shown[j]) {
      assert merged[i] in u && merged[j] in u;
      assert ByResult()(merged[i], merged[j]);
    }
    forall x ensures x in shown <==> x in sorted {
      ShownIsMember(s, active, dormant, x);
    }
    assert forall x :: x in shown ==> x in rows;
    StrictTotalSubset(ByMerged(s, active, dormant), shown, rows);
    SortedUnique(ByMerged(s, active, dormant), shown, sorted);
  }

  lemma TableIsDistinct(active: seq<Row>, dormant: seq<Row>)
    ensures OneTable(active, dormant) ==> Distinct(active + dormant)
  {
  }

  lemma ShownIsMember(s: Scoring, active: seq<Row>, dormant: seq<Row>, x: Row)
    requires OneTable(active, dormant)
    ensures var u := Results(s, active) + Results(s, dormant);
      x in RowsOf(Sort(ByResult(), u)) <==> x in active + dormant
  {
    hide Results, Sort, Own, Best, RowsOf, OneTable;
    var u := Results(s, active) + Results(s, dormant);
    var merged := Sort(ByResult(), u);
    var shown := RowsOf(merged);
    SameMembers(merged, u);
    ResultsAreOwn(s, active, dormant);
    if x in shown {
      var i :| 0 <= i < |shown| && shown[i] == x;
      assert merged[i] in u;
    }
    if x in active + dormant {
      RowHasResult(s, active, dormant, x);
      var r :| r in u && r.row == x;
      assert r in merged;
      var i :| 0 <= i < |merged| && merged[i] == r;
      assert shown[i] == x;
    }
  }

  lemma RowHasResult(s: Scoring, active: seq<Row>, dormant: seq<Row>, x: Row)
    requires x in active + dormant
    ensures exists r :: r in Results(s, active) + Results(s, dormant) && r.row == x
  {
    hide Sort, Best, RankingScore;
    var u := Results(s, active) + Results(s, dormant);
    var list := if x in active then active else dormant;
    SameMembers(Ranked(s, list), list);
    assert x in Ranked(s, list);
    var i :| 0 <= i < |Ranked(s, list)| && Ranked(s, list)[i] == x;
    assert Results(s, list)[i].row == x && Results(s, list)[i] in Results(s, list);
    assert Results(s, list)[i] in u;
  }

  function Times(x: real, y: real): real {
    x * y
  }

  lemma ProductIsPositive(x: real, y: real)
    requires x > 0.0 && y > 0.0
    ensures Times(x, y) > 0.0
  {
  }

  lemma SquareOfDifference(x: real, rest: real)
    requires rest == 1.0 - x
    ensures Times(rest, rest) == 1.0 - 2.0 * x + Times(x, x)
  {
    assert rest * rest == rest - rest * x;
    assert rest * x == x - x * x;
  }

  lemma SomethingIsLeft(g: real)
    requires 0.0 < g < 1.0
    ensures 1.0 - g * g * (3.0 - 2.0 * g) > 0.0
  {
    hide Times;
    var left := Times(1.0 - g, 1.0 - g);
    ProductIsPositive(1.0 - g, 1.0 - g);
    SquareOfDifference(g, 1.0 - g);
    ProductIsPositive(g, left);
    CubicLeft(g, Times(g, g), left);
  }

  lemma CubicLeft(g: real, k: real, left: real)
    requires k == Times(g, g) && left == 1.0 - 2.0 * g + k && left > 0.0 && Times(g, left) > 0.0
    ensures 1.0 - g * g * (3.0 - 2.0 * g) > 0.0
  {
    Distribute(g, 1.0 - 2.0 * g, k);
    Distribute(g, 1.0, -2.0 * g);
    Distribute(k, 3.0, -2.0 * g);
    Regroup(g, -2.0, g);
    Regroup(k, -2.0, g);
  }

  lemma Distribute(x: real, y: real, z: real)
    ensures x * (y + z) == x * y + x * z
  {
  }

  lemma Regroup(x: real, c: real, y: real)
    ensures x * (c * y) == c * (x * y)
  {
  }

  /** All of a refinement is left at the best similarity, half of it half-way to the threshold, none from there on. */
  lemma FadePoints()
    ensures Fade(0.0) == 1.0 && Fade(0.01) == 20.0 / 27.0 && Fade(0.015) == 0.5 && Fade(0.02) == 7.0 / 27.0 && Fade(0.03) == 0.0
  {
  }

  /** Below the threshold something is left of a refinement. */
  lemma FadeEnds(gap: real)
    requires Fade(gap) == 0.0
    ensures gap >= FADE_THRESHOLD
  {
    if 0.0 < gap < FADE_THRESHOLD {
      SomethingIsLeft(gap / FADE_THRESHOLD);
    }
  }

  lemma EqualFaded(x: real, y: real, f: real)
    requires x * f == y * f
    ensures x == y || f == 0.0
  {
    if x != y {
      assert (x - y) * f == 0.0;
    }
  }

  /** Rows of equal similarity that tie against one best tie against every higher one. */
  lemma TiesStay(s: Scoring, best: real, higher: real, a: Row, b: Row)
    requires best <= higher && s.similarity(a) == s.similarity(b)
    requires RankingScore(s, best, a) == RankingScore(s, best, b)
    ensures RankingScore(s, higher, a) == RankingScore(s, higher, b)
  {
    hide Fade;
    if !s.similarityOnly {
      var gap := best - s.similarity(a);
      EqualFaded(s.refinement(a), s.refinement(b), Fade(gap));
      if Fade(gap) == 0.0 {
        FadeEnds(gap);
        assert Fade(higher - s.similarity(a)) == 0.0;
      }
    }
  }

  lemma BestOfPart(s: Scoring, part: seq<Row>, rows: seq<Row>)
    requires part != [] && Distinct(part) && Distinct(rows) && KeyedById(rows) && forall x :: x in part ==> x in rows
    ensures Best(s, part) <= Best(s, rows)
  {
    hide Best;
    BestIsMaximum(s, part);
    BestIsMaximum(s, rows);
  }

  /** A misplaced tie is a pair that the two orders disagree on. */
  lemma MisplacedDisagrees(s: Scoring, active: seq<Row>, dormant: seq<Row>, list: seq<Row>, a: Row, b: Row)
    requires OneTable(active, dormant) && (list == active || list == dormant) && Misplaced(s, list, a, b)
    ensures !OrdersAgree(s, active, dormant)
  {
    hide RankingScore, Best, Fade, Distinct;
    var rows := active + dormant;
    PartsAreKeyed(active, dormant);
    NoRowTwice(active, dormant);
    assert forall x :: x in list ==> x in rows;
    BestOfPart(s, list, rows);
    TiesStay(s, Best(s, list), Best(s, rows), a, b);
    assert MergedBefore(s, active, dormant, b, a) && !RankedBefore(s, Best(s, rows), b, a);
  }

  /** A limit that has room for everything cuts nothing off. */
  lemma ExactWithRoom(s: Scoring, active: seq<Row>, dormant: seq<Row>, limit: nat)
    requires limit >= |Results(s, active)| && limit >= |Results(s, dormant)|
    ensures Exact(s, active, dormant, limit)
  {
    hide Results, Sort;
    var a, d := Results(s, active), Results(s, dormant);
    assert Take(limit, a) == a && Take(limit, d) == d;
  }

  /**
   * The rows shown are the first of one ranking of all memories, at every limit, if and only if the command's order and
   * that ranking order every pair of memories alike.
   */
  lemma OneRankingExactly(s: Scoring, active: seq<Row>, dormant: seq<Row>)
    requires OneTable(active, dormant)
    ensures (forall limit: nat :: OneRanking(s, active, dormant, limit)) <==> OrdersAgree(s, active, dormant)
  {
    hide Results, Sort, Own, StrictTotalOn, Misplaced, Best, RankedBefore, MergedBefore, OrdersAgree, Response, RowsOf;
    var rows := active + dormant;
    var merged, best := Sort(ByResult(), Results(s, active) + Results(s, dormant)), Best(s, rows);
    var less, ranked := ByMerged(s, active, dormant), ByRank(s, best);
    MergedRows(s, active, dormant);
    MergedIsTotal(s, active, dormant);
    ByRankIsTotal(s, best, rows);
    SameOrderSameSort(less, ranked, rows);
    AgreementIsSameOrder(s, active, dormant);
    if forall limit: nat :: OneRanking(s, active, dormant, limit) {
      var n := |RowsOf(merged)| + |Sort(ranked, rows)|;
      assert OneRanking(s, active, dormant, n);
      ExactWithRoom(s, active, dormant, n);
      RowsOfTake(merged, n);
    }
    if OrdersAgree(s, active, dormant) {
      AgreementIsOrderly(s, active, dormant);
      forall limit: nat ensures OneRanking(s, active, dormant, limit) {
        ResponseIsExact(s, active, dormant, limit);
        RowsOfTake(merged, limit);
      }
    }
  }

  lemma AgreementIsOrderly(s: Scoring, active: seq<Row>, dormant: seq<Row>)
    requires OneTable(active, dormant) && OrdersAgree(s, active, dormant)
    ensures NothingMisplaced(s, active) && NothingMisplaced(s, dormant)
  {
    hide Misplaced, OrdersAgree, OneTable;
    forall a, b ensures !Misplaced(s, active, a, b) && !Misplaced(s, dormant, a, b) {
      if Misplaced(s, active, a, b) {
        MisplacedDisagrees(s, active, dormant, active, a, b);
      }
      if Misplaced(s, dormant, a, b) {
        MisplacedDisagrees(s, active, dormant, dormant, a, b);
      }
    }
  }

  lemma RowsOfTake(results: seq<Scored>, limit: nat)
    ensures RowsOf(Take(limit, results)) == Take(limit, RowsOf(results))
  {
  }

  lemma AgreementIsSameOrder(s: Scoring, active: seq<Row>, dormant: seq<Row>)
    ensures OrdersAgree(s, active, dormant) <==>
      forall a, b :: a in active + dormant && b in active + dormant ==>
        (ByMerged(s, active, dormant)(a, b) <==> ByRank(s, Best(s, active + dormant))(a, b))
  {
    hide MergedBefore, RankedBefore, Best;
  }

  /** Nothing to compare across the lists: scores do not fade, a list is empty, or both have the same best. */
  ghost predicate SameScale(s: Scoring, active: seq<Row>, dormant: seq<Row>) {
    s.similarityOnly || active == [] || dormant == [] || Best(s, active) == Best(s, dormant)
  }

  /** On one scale every memory has in its own search the score of the single ranking. */
  lemma ScoresOnOneScale(s: Scoring, active: seq<Row>, dormant: seq<Row>, row: Row)
    requires OneTable(active, dormant) && SameScale(s, active, dormant) && row in active + dormant
    ensures Own(s, active, dormant, row).score == RankingScore(s, Best(s, active + dormant), row)
  {
    hide Best, Fade, Distinct;
    if !s.similarityOnly {
      if active == [] {
        assert active + dormant == dormant;
      } else if dormant == [] {
        assert active + dormant == active;
      } else {
        BestOfUnion(s, active, dormant);
      }
    }
  }

  lemma BestOfUnion(s: Scoring, active: seq<Row>, dormant: seq<Row>)
    requires OneTable(active, dormant) && active != [] && dormant != [] && Best(s, active) == Best(s, dormant)
    ensures Best(s, active + dormant) == Best(s, active)
  {
    hide Best;
    PartsAreKeyed(active, dormant);
    BestIsMaximum(s, active);
    BestIsMaximum(s, dormant);
    BestIsMaximum(s, active + dormant);
    assert forall x :: x in active + dormant <==> x in active || x in dormant;
  }

  /** On one scale, and with no tie misplaced among all memories, the response is one ranking of them. */
  lemma SameScaleIsOneRanking(s: Scoring, active: seq<Row>, dormant: seq<Row>, limit: nat)
    requires OneTable(active, dormant) && SameScale(s, active, dormant) && NothingMisplaced(s, active + dormant)
    ensures OneRanking(s, active, dormant, limit)
  {
    hide Best, RankingScore, SameScale, OneRanking;
    forall a, b | a in active + dormant && b in active + dormant
      ensures MergedBefore(s, active, dormant, a, b) <==> RankedBefore(s, Best(s, active + dormant), a, b)
    {
      ScoresOnOneScale(s, active, dormant, a);
      ScoresOnOneScale(s, active, dormant, b);
      assert !Misplaced(s, active + dormant, a, b) && !Misplaced(s, active + dormant, b, a);
    }
    OneRankingExactly(s, active, dormant);
  }

  // ----- where the response is not exact

  /** Two rows far from the best tie in score and similarity; the store prefers the greater total, the command the newer. */
  ghost predicate TiedBelowTop(s: Scoring, top: Row, a: Row, b: Row) {
    && !s.similarityOnly && KeyedById([top, a, b]) && Distinct([top, a, b])
    && s.similarity(top) == 0.9 && s.similarity(a) == 0.8 && s.similarity(b) == 0.8
    && s.refinement(top) >= 0.0 && s.total(a) > s.total(b) && b.updatedAt > a.updatedAt
  }

  lemma TiedRanking(s: Scoring, top: Row, a: Row, b: Row)
    requires TiedBelowTop(s, top, a, b)
    ensures Best(s, [top, a, b]) == 0.9 && Ranked(s, [top, a, b]) == [top, a, b]
    ensures RankingScore(s, 0.9, a) == RankingScore(s, 0.9, b) == 0.8
  {
    hide Sort, Best, StrictTotalOn;
    var rows := [top, a, b];
    BestIsMaximum(s, rows);
    assert top in rows;
    ByRankIsTotal(s, 0.9, rows);
    SortOfSorted(ByRank(s, 0.9), rows);
  }

  lemma HiddenTieShowsWrongRow(s: Scoring, top: Row, a: Row, b: Row)
    requires TiedBelowTop(s, top, a, b)
    ensures Response(s, [top, a, b], [], 2, true)
      != Take(2, Sort(ByResult(), Results(s, [top, a, b]) + Results(s, [])))
  {
    hide Sort, Best;
    var rows := [top, a, b];
    TiedRanking(s, top, a, b);
    var list := Results(s, rows);
    assert Ranked(s, []) == [];
    assert Results(s, []) == [];
    var kept := Kept(list, [], 2);
    assert kept == [list[0], list[1]];
    SameMembers(Sort(ByResult(), kept), kept);
    assert kept[1] in kept;
    assert Dropped(list, [], 2)[0] == list[2];
    assert !ResultBefore(list[1], list[2]);
    assert rows + [] == rows;
    ResponseExactly(s, rows, [], 2);
  }

  /** The two rankings fade against different bests, so one ranking of all memories may begin with another row. */
  lemma SeparateBestsReorder(s: Scoring, a: Row, d: Row)
    requires a.id != d.id && !s.similarityOnly
    requires s.similarity(a) == 0.9 && s.similarity(d) == 0.89 && s.refinement(a) == 0.0 && s.refinement(d) == 0.012
    ensures Response(s, [a], [d], 1, true)[0].row == d
    ensures Take(1, Ranked(s, [a] + [d])) == [a]
  {
    hide Sort, Best, Fade, RankingScore, SimilarityBefore, TotalBefore, Results;
    assert [a] + [d] == [a, d];
    OneResult(s, a);
    OneResult(s, d);
    var x, y := Score(s, 0.9, a), Score(s, 0.89, d);
    assert Kept(Results(s, [a]), Results(s, [d]), 1) == [x, y];
    OwnAndCommonScores(s, a, d);
    SortTwo(ByResult(), x, y);
    BestOfTwo(s, a, d);
    SortTwo(ByRank(s, 0.9), a, d);
  }

  lemma OneResult(s: Scoring, a: Row)
    ensures Results(s, [a]) == [Score(s, s.similarity(a), a)]
  {
    hide Sort, Best, RankingScore;
    BestOfOne(s, a);
    SortOne(ByRank(s, s.similarity(a)), a);
  }

  /** Against its own best the dormant row is ahead, against the common one the active row. */
  lemma OwnAndCommonScores(s: Scoring, a: Row, d: Row)
    requires !s.similarityOnly
    requires s.similarity(a) == 0.9 && s.similarity(d) == 0.89 && s.refinement(a) == 0.0 && s.refinement(d) == 0.012
    ensures RankingScore(s, 0.9, a) == 0.9 && RankingScore(s, 0.89, d) == 0.902 && RankingScore(s, 0.9, d) < 0.9
  {
    hide Fade;
    FadedByThird();
  }

  lemma FadedByThird()
    ensures Fade(0.9 - 0.89) < 0.8
  {
  }

  lemma BestOfOne(s: Scoring, a: Row)
    ensures Best(s, [a]) == s.similarity(a)
  {
  }

  lemma BestOfTwo(s: Scoring, a: Row, d: Row)
    requires a.id != d.id && s.similarity(a) > s.similarity(d)
    ensures Best(s, [a, d]) == s.similarity(a)
  {
  }
}
