/**
 * Searching a table that agents share. The vector channel looks at one pool of nearest rows, whoever owns them, and the
 * keyword channel is scaled by all rows that match (plugins/memory/src/storage/sqlite_store.rs, rank_search_candidates;
 * hosts/memory-mcp/src/memory_tools.rs, search). The question is when a search answers what it would answer if the table
 * held nothing but the rows that the binding may see.
 */
module SharedSearch {
  import opened Wrappers
  import opened Ordering
  import opened Candidates
  import opened Ranking
  import opened Retrieval
  import Similarity

  const VECTOR_CANDIDATE_POOL_SIZE: nat := 1000
  const VECTOR_SIMILARITY_BLEND_WEIGHT: real := 0.7
  const KEYWORD_SIMILARITY_BLEND_WEIGHT: real := 0.3
  const F64_EPSILON: real := 1.0 / 4503599627370496.0

  /**
   * What a query finds in a row: the similarity of its stored vector, if it has one, and whether that is up to date; its
   * BM25 rank, lower for a better match, if the text matches; and what the blended similarity makes of it. Without a
   * native vector index every vector is looked at, and there is no pool size.
   */
  datatype Query = Query(
    poolSize: Option<nat>,
    vector: Row -> Option<real>,
    current: Row -> bool,
    keyword: Row -> Option<real>,
    similarityOnly: bool,
    refinement: (Row, real) -> real,
    total: (Row, real) -> real)

  // ----- the vector channel

  function Nearness(q: Query, m: Row): real {
    if q.vector(m).Some? then q.vector(m).value else 0.0
  }

  /** Rows at the same distance stand in the order of their ids. */
  predicate Nearer(q: Query, a: Row, b: Row) {
    Nearness(q, a) > Nearness(q, b) || (Nearness(q, a) == Nearness(q, b) && a.id < b.id)
  }

  function ByNearness(q: Query): (Row, Row) -> bool {
    (a, b) => Nearer(q, a, b)
  }

  function Indexed(q: Query): Row -> bool {
    m => q.vector(m).Some?
  }

  /** The nearest rows of the whole index. */
  function Pool(q: Query, table: seq<Row>): seq<Row> {
    var near := Sort(ByNearness(q), Filter(Indexed(q), table));
    if q.poolSize.Some? then Take(q.poolSize.value, near) else near
  }

  /** The filters apply after the pool is taken. */
  function VectorScore(q: Query, table: seq<Row>, admits: Row -> bool, m: Row): Option<real> {
    if m in Pool(q, table) && admits(m) && q.current(m) && Nearness(q, m) > 0.0 then q.vector(m) else None
  }

  // ----- the keyword channel

  function Matched(q: Query, admits: Row -> bool): Row -> bool {
    m => admits(m) && q.keyword(m).Some?
  }

  function Rank(q: Query, m: Row): real {
    if q.keyword(m).Some? then q.keyword(m).value else 0.0
  }

  function Lowest(q: Query, rows: seq<Row>): real {
    if rows == [] then 0.0
    else if |rows| == 1 || Rank(q, rows[0]) <= Lowest(q, rows[1..]) then Rank(q, rows[0])
    else Lowest(q, rows[1..])
  }

  function Highest(q: Query, rows: seq<Row>): real {
    if rows == [] then 0.0
    else if |rows| == 1 || Rank(q, rows[0]) >= Highest(q, rows[1..]) then Rank(q, rows[0])
    else Highest(q, rows[1..])
  }

  function Normalized(rank: real, best: real, worst: real): real {
    if worst - best < F64_EPSILON then 1.0 else Similarity.Clamp((worst - rank) / (worst - best), 0.0, 1.0)
  }

  /** The rank among all rows that match and pass the filters: 1 for the best of them, 0 for the worst. */
  function KeywordScore(q: Query, table: seq<Row>, admits: Row -> bool, m: Row): Option<real> {
    var matches := Filter(Matched(q, admits), table);
    if Matched(q, admits)(m) then Some(Normalized(Rank(q, m), Lowest(q, matches), Highest(q, matches))) else None
  }

  /** No listed row ranks outside the two, and each is the rank of a listed row. */
  lemma {:induction false} RankEnds(q: Query, rows: seq<Row>)
    requires rows != []
    ensures forall m :: m in rows ==> Lowest(q, rows) <= Rank(q, m) <= Highest(q, rows)
    ensures exists m :: m in rows && Rank(q, m) == Lowest(q, rows)
    ensures exists m :: m in rows && Rank(q, m) == Highest(q, rows)
  {
    assert rows[0] in rows && rows == [rows[0]] + rows[1..];
    if |rows| > 1 {
      RankEnds(q, rows[1..]);
      var low :| low in rows[1..] && Rank(q, low) == Lowest(q, rows[1..]);
      var high :| high in rows[1..] && Rank(q, high) == Highest(q, rows[1..]);
      assert low in rows && high in rows;
    }
  }

  /** One of the rows that match and pass the filters, with no rank below its own, or none above. */
  ghost predicate RanksFirst(q: Query, table: seq<Row>, admits: Row -> bool, best: Row) {
    && best in table && admits(best) && q.keyword(best).Some?
    && forall x :: x in table && admits(x) && q.keyword(x).Some? ==> q.keyword(best).value <= q.keyword(x).value
  }

  ghost predicate RanksLast(q: Query, table: seq<Row>, admits: Row -> bool, worst: Row) {
    && worst in table && admits(worst) && q.keyword(worst).Some?
    && forall x :: x in table && admits(x) && q.keyword(x).Some? ==> q.keyword(x).value <= q.keyword(worst).value
  }

  /** A row's share of the way from the worst match to the best; in full if these are one within 2 to the power -52. */
  lemma KeywordScoreExactly(q: Query, table: seq<Row>, admits: Row -> bool, m: Row, best: Row, worst: Row)
    requires m in table && RanksFirst(q, table, admits, best) && RanksLast(q, table, admits, worst)
    ensures var score := KeywordScore(q, table, admits, m);
            var span := q.keyword(worst).value - q.keyword(best).value;
            if !admits(m) || q.keyword(m).None? then score == None
            else if span * 4503599627370496.0 < 1.0 then score == Some(1.0)
            else score == Some((q.keyword(worst).value - q.keyword(m).value) / span)
  {
    hide Filter, Lowest, Highest;
    var matches := Filter(Matched(q, admits), table);
    FilterMembers(Matched(q, admits), table);
    assert best in matches && worst in matches;
    RankEnds(q, matches);
    assert Lowest(q, matches) == Rank(q, best) && Highest(q, matches) == Rank(q, worst);
    if admits(m) && q.keyword(m).Some? {
      assert m in matches;
      ShareIsInRange(Rank(q, worst) - Rank(q, m), Rank(q, worst) - Rank(q, best));
    }
  }

  lemma ShareIsInRange(part: real, span: real)
    requires 0.0 <= part <= span
    ensures span > 0.0 ==> 0.0 <= part / span <= 1.0
  {
  }

  // ----- the search

  function Blend(vector: Option<real>, keyword: Option<real>): real {
    match (vector, keyword)
    case (Some(v), Some(k)) => VECTOR_SIMILARITY_BLEND_WEIGHT * v + KEYWORD_SIMILARITY_BLEND_WEIGHT * k
    case (Some(v), None) => v
    case (None, Some(k)) => k
    case (None, None) => 0.0
  }

  /** Seven parts of the vector similarity and three of the keyword score; one channel alone counts in full. */
  lemma BlendExactly(v: real, k: real)
    ensures Blend(Some(v), Some(k)) == (7.0 * v + 3.0 * k) / 10.0
    ensures Blend(Some(v), None) == v && Blend(None, Some(k)) == k && Blend(None, None) == 0.0
  {
  }

  function Blended(q: Query, table: seq<Row>, admits: Row -> bool, m: Row): real {
    Blend(VectorScore(q, table, admits, m), KeywordScore(q, table, admits, m))
  }

  function Reached(q: Query, table: seq<Row>, admits: Row -> bool): Row -> bool {
    m => VectorScore(q, table, admits, m).Some? || KeywordScore(q, table, admits, m).Some?
  }

  function ScoringIn(q: Query, table: seq<Row>, admits: Row -> bool): Scoring {
    Scoring(q.similarityOnly,
            m => Blended(q, table, admits, m),
            m => q.refinement(m, Blended(q, table, admits, m)),
            m => q.total(m, Blended(q, table, admits, m)))
  }

  function Admitted(b: Binding, types: Option<set<nat>>): Row -> bool {
    m => Admits(b, Active, types, m)
  }

  /** The search of one binding in a table. */
  function SearchIn(b: Binding, q: Query, table: seq<Row>, args: SearchArgs): seq<Row> {
    var admits := Admitted(b, args.types);
    Search(b, table, ScoringIn(q, table, admits), Reached(q, table, admits), args)
  }

  /** The rows that the binding may see, as a table of their own. */
  function Own(b: Binding, table: seq<Row>): seq<Row> {
    Filter(Visible(b), table)
  }

  /** The binding's candidates in a table, and those among them that it may see. */
  function Considered(b: Binding, q: Query, table: seq<Row>, args: SearchArgs): seq<Row> {
    Filter(CandidateFor(b, Reached(q, table, Admitted(b, args.types)), args), table)
  }

  function Shown(b: Binding, q: Query, table: seq<Row>, args: SearchArgs): seq<Row> {
    Filter(VisibleCandidateFor(b, Reached(q, table, Admitted(b, args.types)), args), table)
  }

  function OrderIn(b: Binding, q: Query, table: seq<Row>, args: SearchArgs): (Row, Row) -> bool {
    var s := ScoringIn(q, table, Admitted(b, args.types));
    ByRank(s, Best(s, Considered(b, q, table, args)))
  }

  // ----- the pool

  function Rival(q: Query, m: Row): Row -> bool {
    x => q.vector(x).Some? && Nearer(q, x, m)
  }

  /** As many rows as the pool holds are nearer than m. */
  predicate CrowdedOut(q: Query, table: seq<Row>, m: Row) {
    q.poolSize.Some? && |Filter(Rival(q, m), table)| >= q.poolSize.value
  }

  lemma NearnessIsTotal(q: Query, rows: seq<Row>)
    requires KeyedById(rows)
    ensures StrictTotalOn(ByNearness(q), rows)
  {
  }

  function ComesBefore<T>(less: (T, T) -> bool, y: T): T -> bool {
    x => less(x, y)
  }

  /** What stands before an element of a sorted list are the elements that come before it. */
  lemma BeforeInSorted<T(!new)>(less: (T, T) -> bool, xs: seq<T>, i: nat)
    requires i < |xs| && Sorted(less, xs) && StrictTotalOn(less, xs)
    ensures Filter(ComesBefore(less, xs[i]), xs) == xs[..i]
  {
    hide Filter;
    var p := ComesBefore(less, xs[i]);
    assert xs == xs[..i] + xs[i..];
    FilterAppend(p, xs[..i], xs[i..]);
    forall x | x in xs[i..] ensures !p(x) {
      var k :| 0 <= k < |xs| - i && xs[i..][k] == x;
      assert xs[i] in xs && xs[i + k] in xs;
      assert k > 0 ==> less(xs[i], xs[i + k]);
    }
    FilterAll(p, xs[..i]);
    FilterNone(p, xs[i..]);
  }

  /** A row of the index is in the pool if and only if fewer rows than the pool holds are nearer. */
  lemma InPoolExactly(q: Query, table: seq<Row>, m: Row)
    requires Distinct(table) && KeyedById(table) && m in table && q.vector(m).Some?
    ensures m in Pool(q, table) <==> !CrowdedOut(q, table, m)
  {
    hide Filter, Sort, Distinct, StrictTotalOn, Nearer;
    var less, index := ByNearness(q), Filter(Indexed(q), table);
    var near := Sort(less, index);
    FilterMembers(Indexed(q), table);
    NearnessIsTotal(q, index);
    SortSorts(less, index);
    SameMembers(near, index);
    SortedIsDistinct(less, near, index);
    StrictTotalSubset(less, near, index);
    assert m in near;
    var i :| 0 <= i < |near| && near[i] == m;
    BeforeInSorted(less, near, i);
    FilterSort(less, ComesBefore(less, m), index);
    FilterCompose(Indexed(q), ComesBefore(less, m), Rival(q, m), table);
    assert |Filter(Rival(q, m), table)| == i;
    OnlyPlace(near, i, if q.poolSize.Some? then q.poolSize.value else |near|);
  }

  lemma OnlyPlace<T(!new)>(xs: seq<T>, i: nat, k: nat)
    requires Distinct(xs) && i < |xs|
    ensures xs[i] in Take(k, xs) <==> i < k
  {
    if xs[i] in Take(k, xs) {
      var j :| 0 <= j < |Take(k, xs)| && xs[j] == xs[i];
    }
  }

  /** Fewer rows crowd out fewer. */
  lemma OwnCrowdsLess(b: Binding, q: Query, table: seq<Row>, m: Row)
    ensures CrowdedOut(q, Own(b, table), m) ==> CrowdedOut(q, table, m)
  {
    hide Filter, VisibleMemory;
    var both := (x: Row) => Rival(q, m)(x) && VisibleMemory(b, x);
    FilterCompose(Visible(b), Rival(q, m), both, table);
    FilterCompose(Rival(q, m), Visible(b), both, table);
    FilterMembers(Visible(b), Filter(Rival(q, m), table));
  }

  /** A pool with room for every vector crowds out nothing. */
  lemma RoomForAll(q: Query, table: seq<Row>, m: Row)
    requires m in table && q.vector(m).Some?
    requires q.poolSize.Some? ==> |Filter(Indexed(q), table)| <= q.poolSize.value
    ensures !CrowdedOut(q, table, m)
  {
    hide Filter;
    FilterMembers(Indexed(q), table);
    FilterCompose(Indexed(q), Rival(q, m), Rival(q, m), table);
    FilterShorter(Rival(q, m), Filter(Indexed(q), table));
  }
}
