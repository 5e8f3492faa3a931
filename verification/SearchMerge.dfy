/** The search command merges two truncated rankings into one (plugins/memory/src/cli.rs). */
module SearchMerge {
  import opened Wrappers
  import opened Ordering
  import opened Ranking
  import opened TopMerge
  import Text

  /** A search result: the row, its ranking score and its similarity. */
  datatype Scored = Scored(row: Row, score: real, similarity: real)

  function Score(s: Scoring, best: real, row: Row): Scored {
    Scored(row, RankingScore(s, best, row), s.similarity(row))
  }

  function ScoreAll(s: Scoring, best: real, rows: seq<Row>): (r: seq<Scored>)
    ensures |r| == |rows| && forall i :: 0 <= i < |rows| ==> r[i] == Score(s, best, rows[i])
  {
    if rows == [] then [] else [Score(s, best, rows[0])] + ScoreAll(s, best, rows[1..])
  }

  /** The store's whole ranking of some candidates, scored against the best of them. */
  function Results(s: Scoring, candidates: seq<Row>): seq<Scored> {
    ScoreAll(s, Best(s, candidates), Ranked(s, candidates))
  }

  /** Score, similarity, update time, id, each descending. */
  predicate ResultBefore(a: Scored, b: Scored) {
    a.score > b.score
    || (a.score == b.score
        && (a.similarity > b.similarity || (a.similarity == b.similarity && Newer(a.row, b.row))))
  }

  function ByResult(): (Scored, Scored) -> bool {
    (a, b) => ResultBefore(a, b)
  }

  function Response(s: Scoring, active: seq<Row>, dormant: seq<Row>, limit: nat, includeDormant: bool): seq<Scored> {
    if includeDormant then Take(limit, Sort(ByResult(), Kept(Results(s, active), Results(s, dormant), limit)))
    else Take(limit, Results(s, active))
  }

  /** The rows of both lists together are rows of one table. */
  ghost predicate OneTable(active: seq<Row>, dormant: seq<Row>) {
    Distinct(active + dormant) && KeyedById(active + dormant)
  }

  lemma ResultsAreRows(s: Scoring, candidates: seq<Row>)
    requires Distinct(candidates) && KeyedById(candidates)
    ensures forall r :: r in Results(s, candidates) ==> r.row in candidates && r == Score(s, Best(s, candidates), r.row)
    ensures Distinct(Results(s, candidates)) && Sorted(ByRank(s, Best(s, candidates)), Ranked(s, candidates))
    ensures |Results(s, candidates)| == |candidates|
  {
    hide Sort, Best, RankedBefore, Score, StrictTotalOn;
    var less := ByRank(s, Best(s, candidates));
    var ranked := Ranked(s, candidates);
    ByRankIsTotal(s, Best(s, candidates), candidates);
    SortSorts(less, candidates);
    SameMembers(ranked, candidates);
    SortedIsDistinct(less, ranked, candidates);
    forall r | r in Results(s, candidates) ensures r.row in candidates && r == Score(s, Best(s, candidates), r.row) {
      var i :| 0 <= i < |ranked| && Results(s, candidates)[i] == r;
      ScoreKeepsRow(s, Best(s, candidates), ranked[i]);
    }
    forall i, j | 0 <= i < j < |ranked| ensures Results(s, candidates)[i] != Results(s, candidates)[j] {
      ScoreKeepsRow(s, Best(s, candidates), ranked[i]);
      ScoreKeepsRow(s, Best(s, candidates), ranked[j]);
    }
  }

  lemma ScoreKeepsRow(s: Scoring, best: real, row: Row)
    ensures Score(s, best, row).row == row
  {
  }

  lemma ResultsAreOneList(s: Scoring, active: seq<Row>, dormant: seq<Row>)
    requires OneTable(active, dormant)
    ensures Distinct(Results(s, active) + Results(s, dormant))
    ensures StrictTotalOn(ByResult(), Results(s, active) + Results(s, dormant))
  {
    hide Results, Score, Distinct;
    var a, d := Results(s, active), Results(s, dormant);
    DistinctParts(active, dormant);
    ResultsAreRows(s, active);
    ResultsAreRows(s, dormant);
    assert forall x :: x in active + dormant <==> x in active || x in dormant;
    NoRowTwice(active, dormant);
    DistinctAppend(a, d);
    forall x: Scored, y: Scored | x in a + d && y in a + d ensures x == y || x.row.id != y.row.id {
      assert x in a || x in d;
      assert y in a || y in d;
      assert x.row in active + dormant && y.row in active + dormant;
    }
    ResultOrderIsTotal(a + d);
  }

  lemma NoRowTwice(active: seq<Row>, dormant: seq<Row>)
    requires Distinct(active + dormant)
    ensures forall x :: x in active ==> x !in dormant
  {
    var both := active + dormant;
    forall x | x in active ensures x !in dormant {
      var i :| 0 <= i < |active| && active[i] == x;
      assert both[i] == x;
      assert forall j :: 0 <= j < |dormant| ==> both[|active| + j] == dormant[j];
    }
  }

  lemma ResultOrderIsTotal(results: seq<Scored>)
    requires forall x, y :: x in results && y in results ==> x == y || x.row.id != y.row.id
    ensures StrictTotalOn(ByResult(), results)
  {
  }

  /**
   * With dormant memories the response is the first `limit` of both rankings together if and only if every result that
   * either search cut off comes after every result shown.
   */
  lemma ResponseExactly(s: Scoring, active: seq<Row>, dormant: seq<Row>, limit: nat)
    requires OneTable(active, dormant)
    ensures var shown := Response(s, active, dormant, limit, true);
      shown == Take(limit, Sort(ByResult(), Results(s, active) + Results(s, dormant))) <==>
        forall r, d :: r in shown && d in Dropped(Results(s, active), Results(s, dormant), limit) ==> ResultBefore(r, d)
  {
    hide Results, Sort, OneTable, Kept, Dropped, Take, Distinct, StrictTotalOn;
    ResultsAreOneList(s, active, dormant);
    MergeExactly(ByResult(), Results(s, active), Results(s, dormant), limit);
  }

  // ----- the command

  datatype SearchError = ZeroLimit | EmptyQuery

  function Lists(active: seq<Row>, dormant: seq<Row>, includeDormant: bool): seq<Row> {
    if includeDormant then active + dormant else active
  }

  /**
   * What a caller gets: as many results as the limit allows, each a different candidate with the score of its own
   * search; without dormant memories the first of the ranking, with them in the order of the results.
   */
  ghost predicate Served(s: Scoring, active: seq<Row>, dormant: seq<Row>, limit: nat, includeDormant: bool, results: seq<Scored>) {
    && |results| == Min(limit, |Lists(active, dormant, includeDormant)|)
    && Distinct(results)
    && (forall r :: r in results ==>
          || (r.row in active && r == Score(s, Best(s, active), r.row))
          || (includeDormant && r.row in dormant && r == Score(s, Best(s, dormant), r.row)))
    && (includeDormant ==> Sorted(ByResult(), results))
    && (!includeDormant ==> IsTopOf(s, active, results))
  }

  /** The results stand in the order of the ranking, and nothing that is not among them comes before one of them. */
  ghost predicate IsTopOf(s: Scoring, active: seq<Row>, results: seq<Scored>) {
    var best := Best(s, active);
    && (forall i, j :: 0 <= i < j < |results| ==> RankedBefore(s, best, results[i].row, results[j].row))
    && (forall r, x :: r in results && x in active && (forall q :: q in results ==> q.row != x) ==> RankedBefore(s, best, r.row, x))
  }

  lemma ActiveIsTop(s: Scoring, active: seq<Row>, limit: nat)
    requires Distinct(active) && KeyedById(active)
    ensures IsTopOf(s, active, Take(limit, Results(s, active)))
  {
    hide Sort, Best, RankedBefore, StrictTotalOn, KeyedById, Distinct;
    ResultsAreRows(s, active);
    var ranked, results, best := Ranked(s, active), Results(s, active), Best(s, active);
    SameMembers(ranked, active);
    var shown := Take(limit, results);
    assert forall i :: 0 <= i < |results| ==> results[i].row == ranked[i];
    assert forall i :: 0 <= i < |shown| ==> shown[i] == results[i] && shown[i] in shown;
    forall r, x | r in shown && x in active && (forall q :: q in shown ==> q.row != x) ensures RankedBefore(s, best, r.row, x) {
      var i :| 0 <= i < |shown| && shown[i] == r;
      assert x in ranked;
      var j :| 0 <= j < |ranked| && ranked[j] == x;
      assert ByRank(s, best)(ranked[i], ranked[j]);
    }
    forall i, j | 0 <= i < j < |shown| ensures RankedBefore(s, best, shown[i].row, shown[j].row) {
      assert ByRank(s, best)(ranked[i], ranked[j]);
    }
  }

  lemma ActiveServes(s: Scoring, active: seq<Row>, dormant: seq<Row>, limit: nat)
    requires OneTable(active, dormant)
    ensures Served(s, active, dormant, limit, false, Response(s, active, dormant, limit, false))
  {
    hide Sort, Best, Score, Results, OneTable, KeyedById;
    PartsAreKeyed(active, dormant);
    ResultsAreRows(s, active);
    var a := Results(s, active);
    assert forall r :: r in Take(limit, a) ==> r in a;
    ActiveIsTop(s, active, limit);
  }

  lemma MergedServes(s: Scoring, active: seq<Row>, dormant: seq<Row>, limit: nat)
    requires OneTable(active, dormant)
    ensures Served(s, active, dormant, limit, true, Response(s, active, dormant, limit, true))
  {
    hide Sort, Best, Score, Results, StrictTotalOn, OneTable, KeyedById, Kept, Dropped, Distinct;
    PartsAreKeyed(active, dormant);
    ResultsAreRows(s, active);
    ResultsAreRows(s, dormant);
    ResultsAreOneList(s, active, dormant);
    var a, d := Results(s, active), Results(s, dormant);
    var sorted := Sort(ByResult(), Kept(a, d, limit));
    SortedParts(ByResult(), a, d, limit);
    KeptLength(a, d, limit);
    forall r | r in Take(limit, sorted) ensures r in a || r in d {
      assert r in sorted;
      assert r in a + d;
    }
    FrontIsDistinct(ByResult(), a + d, sorted, limit);
  }

  lemma KeptLength<T>(a: seq<T>, b: seq<T>, k: nat)
    ensures Min(k, |Kept(a, b, k)|) == Min(k, |a| + |b|)
  {
  }

  lemma FrontIsDistinct(less: (Scored, Scored) -> bool, members: seq<Scored>, sorted: seq<Scored>, k: nat)
    requires Sorted(less, sorted) && StrictTotalOn(less, members) && forall x :: x in sorted ==> x in members
    ensures Distinct(Take(k, sorted)) && Sorted(less, Take(k, sorted))
  {
    SortedIsDistinct(less, sorted, members);
  }

  lemma PartsAreKeyed(active: seq<Row>, dormant: seq<Row>)
    requires OneTable(active, dormant)
    ensures Distinct(active) && Distinct(dormant) && KeyedById(active) && KeyedById(dormant)
  {
    DistinctParts(active, dormant);
    assert forall x :: x in active + dormant <==> x in active || x in dormant;
  }

  method BuildSearchResponse(
      text: Text.Rules, query: string, s: Scoring, active: seq<Row>, dormant: seq<Row>, limit: nat, includeDormant: bool)
    returns (r: Result<seq<Scored>, SearchError>)
    requires OneTable(active, dormant)
    ensures r == Err(ZeroLimit) <==> limit == 0
    ensures r == Err(EmptyQuery) <==> limit > 0 && Text.Trim(text, query) == ""
    ensures r.Ok? ==> Served(s, active, dormant, limit, includeDormant, r.value)
    ensures r.Ok? ==> r.value == Response(s, active, dormant, limit, includeDormant)
  {
    hide Sort, Results, Served, OneTable;
    if limit == 0 {
      return Err(ZeroLimit);
    }
    if Text.Trim(text, query) == "" {
      return Err(EmptyQuery);
    }
    var results := Take(limit, Results(s, active));
    if includeDormant {
      results := results + Take(limit, Results(s, dormant));
      results := Sort(ByResult(), results);
      results := Take(limit, results);
    }
    if includeDormant {
      MergedServes(s, active, dormant, limit);
    } else {
      ActiveServes(s, active, dormant, limit);
    }
    r := Ok(results);
  }
}
