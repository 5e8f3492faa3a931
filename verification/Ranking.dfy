/**
 * Rows of the memories table, and the ranking of search candidates
 * (plugins/memory/src/storage/sqlite_store.rs, with the two ranking constants of that file).
 */
module Ranking {
  import opened Wrappers
  import opened Ordering
  import opened Scopes
  import opened Candidates

  datatype Row = Row(
    id: nat,
    scope: MemoryScope,
    agentId: Option<string>,
    state: MemoryState,
    memoryType: nat,
    createdAt: int,
    updatedAt: int)

  /** No two rows share an id. */
  ghost predicate KeyedById(rows: seq<Row>) {
    forall a, b :: a in rows && b in rows && a.id == b.id ==> a == b
  }

  /** Latest update first, then greatest id. */
  predicate Newer(a: Row, b: Row) {
    a.updatedAt > b.updatedAt || (a.updatedAt == b.updatedAt && a.id > b.id)
  }

  const FADE_THRESHOLD: real := 0.03

  /** What a query gives each row: its blended similarity, its refinement before fading, and its total score. */
  datatype Scoring = Scoring(
    similarityOnly: bool,
    similarity: Row -> real,
    refinement: Row -> real,
    total: Row -> real)

  /** How much of the refinement is left at a distance from the best similarity: all at 0, none from the threshold on. */
  function Fade(gap: real): (f: real)
    ensures gap <= 0.0 ==> f == 1.0
    ensures gap >= FADE_THRESHOLD ==> f == 0.0
  {
    var g := if gap <= 0.0 then 0.0 else if gap >= FADE_THRESHOLD then 1.0 else gap / FADE_THRESHOLD;
    1.0 - g * g * (3.0 - 2.0 * g)
  }

  function RankingScore(s: Scoring, best: real, row: Row): real {
    if s.similarityOnly then s.total(row)
    else s.similarity(row) + s.refinement(row) * Fade(best - s.similarity(row))
  }

  /** Total score, similarity, update time, id, each descending. */
  predicate TotalBefore(s: Scoring, a: Row, b: Row) {
    s.total(a) > s.total(b)
    || (s.total(a) == s.total(b)
        && (s.similarity(a) > s.similarity(b) || (s.similarity(a) == s.similarity(b) && Newer(a, b))))
  }

  /** Similarity first. */
  predicate SimilarityBefore(s: Scoring, a: Row, b: Row) {
    s.similarity(a) > s.similarity(b) || (s.similarity(a) == s.similarity(b) && TotalBefore(s, a, b))
  }

  /** Ranking score first, then similarity, then the total order. */
  predicate RankedBefore(s: Scoring, best: real, a: Row, b: Row) {
    var x, y := RankingScore(s, best, a), RankingScore(s, best, b);
    x > y || (x == y && SimilarityBefore(s, a, b))
  }

  function ByUpdate(): (Row, Row) -> bool {
    (a, b) => Newer(a, b)
  }

  function BySimilarity(s: Scoring): (Row, Row) -> bool {
    (a, b) => SimilarityBefore(s, a, b)
  }

  function ByRank(s: Scoring, best: real): (Row, Row) -> bool {
    (a, b) => RankedBefore(s, best, a, b)
  }

  /** The similarity of the first candidate by similarity. */
  function Best(s: Scoring, candidates: seq<Row>): real {
    if candidates == [] then 0.0
    else
      var sorted := Sort(BySimilarity(s), candidates);
      assert |multiset(sorted)| == |sorted| && |multiset(candidates)| == |candidates|;
      s.similarity(sorted[0])
  }

  /** The candidates as the store ranks them. */
  function Ranked(s: Scoring, candidates: seq<Row>): seq<Row> {
    Sort(ByRank(s, Best(s, candidates)), candidates)
  }

  // ----- the comparators are strict total orders on rows of a table

  lemma NewerIsTotal(rows: seq<Row>)
    requires KeyedById(rows)
    ensures StrictTotalOn(ByUpdate(), rows)
  {
  }

  lemma BySimilarityIsTotal(s: Scoring, rows: seq<Row>)
    requires KeyedById(rows)
    ensures StrictTotalOn(BySimilarity(s), rows)
  {
  }

  lemma RankedBeforeIsTotal(s: Scoring, best: real, a: Row, b: Row, c: Row)
    ensures !RankedBefore(s, best, a, a)
    ensures a.id != b.id ==> RankedBefore(s, best, a, b) || RankedBefore(s, best, b, a)
    ensures RankedBefore(s, best, a, b) && RankedBefore(s, best, b, c) ==> RankedBefore(s, best, a, c)
  {
  }

  /** The ranking has no ties: it is a strict total order, whatever the scores. */
  lemma ByRankIsTotal(s: Scoring, best: real, rows: seq<Row>)
    requires KeyedById(rows)
    ensures StrictTotalOn(ByRank(s, best), rows)
  {
    hide RankedBefore;
    forall a, b, c | a in rows && b in rows && c in rows
      ensures !RankedBefore(s, best, a, a) && (a == b || RankedBefore(s, best, a, b) || RankedBefore(s, best, b, a))
      ensures RankedBefore(s, best, a, b) && RankedBefore(s, best, b, c) ==> RankedBefore(s, best, a, c)
    {
      RankedBeforeIsTotal(s, best, a, b, c);
    }
  }

  /** The best similarity is reached by a candidate and exceeded by none. */
  lemma BestIsMaximum(s: Scoring, rows: seq<Row>)
    requires KeyedById(rows) && Distinct(rows) && rows != []
    ensures exists a :: a in rows && s.similarity(a) == Best(s, rows)
    ensures forall a :: a in rows ==> s.similarity(a) <= Best(s, rows)
  {
    hide Sort, TotalBefore, KeyedById, StrictTotalOn;
    var less := BySimilarity(s);
    var sorted := Sort(less, rows);
    BySimilarityIsTotal(s, rows);
    SortSorts(less, rows);
    SameMembers(sorted, rows);
    assert sorted[0] in rows;
    forall a | a in rows ensures s.similarity(a) <= Best(s, rows) {
      assert a in sorted;
      var k :| 0 <= k < |sorted| && sorted[k] == a;
      assert k > 0 ==> less(sorted[0], sorted[k]);
    }
  }
}
