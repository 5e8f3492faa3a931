/**
 * When a search in a shared table answers what it would answer on the rows that its binding may see, and three ways in
 * which rows it never shows can change it (hosts/memory-mcp/src/memory_tools.rs, search;
 * plugins/memory/src/storage/sqlite_store.rs, rank_search_candidates).
 */
module SearchIsolation {
  import opened Wrappers
  import opened Ordering
  import opened Scopes
  import opened Candidates
  import opened Ranking
  import opened Retrieval
  import opened SharedSearch

  // ----- the exact condition

  ghost predicate Isolated(b: Binding, q: Query, table: seq<Row>, args: SearchArgs) {
    forall n: nat :: SearchIn(b, q, table, args.(limit := n)) == SearchIn(b, q, Own(b, table), args.(limit := n))
  }

  /** The visible rows are reached alike, and those reached are ordered alike. */
  ghost predicate SeesAlike(b: Binding, q: Query, table: seq<Row>, args: SearchArgs) {
    && (forall m :: m in table && VisibleMemory(b, m) && Admitted(b, args.types)(m) ==>
          (Reached(q, table, Admitted(b, args.types))(m) <==> Reached(q, Own(b, table), Admitted(b, args.types))(m)))
    && (forall a, c :: a in Shown(b, q, table, args) && c in Shown(b, q, table, args) ==>
          (OrderIn(b, q, table, args)(a, c) <==> OrderIn(b, q, Own(b, table), args)(a, c)))
  }

  /** Two sorted lists are equal exactly when members and order agree. */
  lemma SameSorted<T(!new)>(less: (T, T) -> bool, other: (T, T) -> bool, xs: seq<T>, ys: seq<T>)
    requires Distinct(xs) && Distinct(ys) && StrictTotalOn(less, xs) && StrictTotalOn(other, ys)
    ensures Sort(less, xs) == Sort(other, ys) <==>
      (forall x :: x in xs <==> x in ys) && (forall a, c :: a in xs && c in xs ==> (less(a, c) <==> other(a, c)))
  {
    hide Sort, Distinct, StrictTotalOn;
    SameMembers(Sort(less, xs), xs);
    SameMembers(Sort(other, ys), ys);
    if Sort(less, xs) == Sort(other, ys) {
      forall x ensures x in xs <==> x in ys {
        assert x in Sort(less, xs) <==> x in xs;
      }
    }
    if forall x :: x in xs <==> x in ys {
      StrictTotalSubset(other, xs, ys);
      SortDependsOnMembers(other, ys, xs);
      SameOrderSameSort(less, other, xs);
    }
  }

  lemma FormIn(b: Binding, q: Query, table: seq<Row>, args: SearchArgs, n: nat)
    requires Distinct(table) && KeyedById(table)
    ensures SearchIn(b, q, table, args.(limit := n)) == Take(n, Sort(OrderIn(b, q, table, args), Shown(b, q, table, args)))
  {
    hide Filter, Sort, Search, ScoringIn, Reached, Best;
    var hit, cut := Reached(q, table, Admitted(b, args.types)), args.(limit := n);
    SearchForm(b, table, ScoringIn(q, table, Admitted(b, args.types)), hit, cut);
    SamePredicate(CandidateFor(b, hit, cut), CandidateFor(b, hit, args), table);
    SamePredicate(VisibleCandidateFor(b, hit, cut), VisibleCandidateFor(b, hit, args), table);
  }

  lemma OwnIsTable(b: Binding, table: seq<Row>)
    requires Distinct(table) && KeyedById(table)
    ensures Distinct(Own(b, table)) && KeyedById(Own(b, table))
    ensures forall m :: m in Own(b, table) <==> m in table && VisibleMemory(b, m)
  {
    hide Filter, VisibleMemory, Distinct;
    FilterMembers(Visible(b), table);
  }

  lemma ShownMembers(b: Binding, q: Query, table: seq<Row>, args: SearchArgs)
    requires Distinct(table) && KeyedById(table)
    ensures Distinct(Shown(b, q, table, args)) && StrictTotalOn(OrderIn(b, q, table, args), Shown(b, q, table, args))
    ensures forall m :: m in Shown(b, q, table, args) <==>
      m in table && VisibleMemory(b, m) && Admitted(b, args.types)(m) && Reached(q, table, Admitted(b, args.types))(m)
  {
    hide Filter, VisibleMemory, Distinct, Best, ScoringIn, Reached, Admits, RankedBefore;
    var hit := Reached(q, table, Admitted(b, args.types));
    FilterMembers(VisibleCandidateFor(b, hit, args), table);
    var s := ScoringIn(q, table, Admitted(b, args.types));
    ByRankIsTotal(s, Best(s, Considered(b, q, table, args)), Shown(b, q, table, args));
    assert RequestedState(StateFilter(args)) == Active;
  }

  /** The same rows are shown exactly when the visible rows are reached alike. */
  lemma ShownAlike(b: Binding, q: Query, table: seq<Row>, args: SearchArgs)
    requires Distinct(table) && KeyedById(table)
    ensures var admits := Admitted(b, args.types);
      (forall m :: m in Shown(b, q, table, args) <==> m in Shown(b, q, Own(b, table), args)) <==>
        forall m :: m in table && VisibleMemory(b, m) && admits(m) ==>
          (Reached(q, table, admits)(m) <==> Reached(q, Own(b, table), admits)(m))
  {
    hide Shown, OrderIn, Own, StrictTotalOn, VisibleMemory, Reached, Admitted, KeyedById, Distinct;
    OwnIsTable(b, table);
    ShownMembers(b, q, table, args);
    ShownMembers(b, q, Own(b, table), args);
  }

  lemma ListsAlike(b: Binding, q: Query, table: seq<Row>, args: SearchArgs)
    requires Distinct(table) && KeyedById(table)
    ensures Isolated(b, q, table, args) <==>
      Sort(OrderIn(b, q, table, args), Shown(b, q, table, args))
        == Sort(OrderIn(b, q, Own(b, table), args), Shown(b, q, Own(b, table), args))
  {
    hide Shown, OrderIn, Own, Sort, StrictTotalOn, SearchIn, VisibleMemory, KeyedById, Distinct;
    var own := Own(b, table);
    var l, r := Sort(OrderIn(b, q, table, args), Shown(b, q, table, args)), Sort(OrderIn(b, q, own, args), Shown(b, q, own, args));
    OwnIsTable(b, table);
    if Isolated(b, q, table, args) {
      var n := |l| + |r|;
      FormIn(b, q, table, args, n);
      FormIn(b, q, own, args, n);
      assert SearchIn(b, q, table, args.(limit := n)) == SearchIn(b, q, own, args.(limit := n));
    }
    if l == r {
      forall n: nat ensures SearchIn(b, q, table, args.(limit := n)) == SearchIn(b, q, own, args.(limit := n)) {
        FormIn(b, q, table, args, n);
        FormIn(b, q, own, args, n);
      }
    }
  }

  /**
   * A search in the shared table answers, at every limit, what it would answer on the visible rows alone, if and only if
   * the visible rows are reached alike and ordered alike.
   */
  lemma SearchIsIsolatedExactly(b: Binding, q: Query, table: seq<Row>, args: SearchArgs)
    requires Distinct(table) && KeyedById(table)
    ensures Isolated(b, q, table, args) <==> SeesAlike(b, q, table, args)
  {
    hide Isolated, Shown, OrderIn, Own, Sort, StrictTotalOn, VisibleMemory, Reached, Admitted, KeyedById, Distinct, Take;
    var own := Own(b, table);
    OwnIsTable(b, table);
    ShownMembers(b, q, table, args);
    ShownMembers(b, q, own, args);
    ShownAlike(b, q, table, args);
    ListsAlike(b, q, table, args);
    SameSorted(OrderIn(b, q, table, args), OrderIn(b, q, own, args), Shown(b, q, table, args), Shown(b, q, own, args));
  }

  /** Which rows a search shows: visible, active, of the types asked for, and reached by the text or the embedding. */
  lemma ShownExactly(b: Binding, q: Query, table: seq<Row>, args: SearchArgs, m: Row)
    requires Distinct(table) && KeyedById(table)
    ensures m in Shown(b, q, table, args) <==>
      && m in table && m.scope.Rank() >= b.readScope.Rank() && m.state == Active
      && (m.agentId == Some(b.agentId) || (m.agentId == None && b.includeUnowned))
      && (args.types == None || m.memoryType in args.types.value)
      && Reached(q, table, Admitted(b, args.types))(m)
  {
    hide Shown, Reached;
    ShownMembers(b, q, table, args);
    VisibleExactly(b, m);
  }

  // ----- what rows that are not shown can change

  /** Among the visible rows alone m would be in the pool; in the shared table it is not. */
  predicate LostToPool(b: Binding, q: Query, table: seq<Row>, m: Row) {
    && q.vector(m).Some? && q.current(m) && Nearness(q, m) > 0.0
    && CrowdedOut(q, table, m) && !CrowdedOut(q, Own(b, table), m)
  }

  /** A visible row keeps its vector score unless it is lost to the pool. */
  lemma VectorScoresExactly(b: Binding, q: Query, table: seq<Row>, admits: Row -> bool, m: Row)
    requires Distinct(table) && KeyedById(table) && m in table && VisibleMemory(b, m) && admits(m)
    ensures VectorScore(q, table, admits, m) ==
            if LostToPool(b, q, table, m) then None else VectorScore(q, Own(b, table), admits, m)
  {
    hide Pool, CrowdedOut, Own, VisibleMemory, Distinct, KeyedById;
    OwnIsTable(b, table);
    OwnCrowdsLess(b, q, table, m);
    if q.vector(m).Some? {
      InPoolExactly(q, table, m);
      InPoolExactly(q, Own(b, table), m);
    }
  }

  /** A visible row is reached in the shared table unless it is lost to the pool and the text does not match it. */
  lemma ReachedExactly(b: Binding, q: Query, table: seq<Row>, admits: Row -> bool, m: Row)
    requires Distinct(table) && KeyedById(table) && m in table && VisibleMemory(b, m) && admits(m)
    ensures Reached(q, table, admits)(m) <==>
      Reached(q, Own(b, table), admits)(m) && !(LostToPool(b, q, table, m) && q.keyword(m).None?)
  {
    hide Pool, CrowdedOut, Own, VisibleMemory, Distinct, KeyedById, Filter, Lowest, Highest, Normalized;
    VectorScoresExactly(b, q, table, admits, m);
    if LostToPool(b, q, table, m) {
      OwnIsTable(b, table);
      InPoolExactly(q, Own(b, table), m);
    }
  }

  /** The rows that are not visible do not extend the range of the keyword ranks. */
  ghost predicate SameRange(b: Binding, q: Query, table: seq<Row>, admits: Row -> bool) {
    var all, own := Filter(Matched(q, admits), table), Filter(Matched(q, admits), Own(b, table));
    Lowest(q, all) == Lowest(q, own) && Highest(q, all) == Highest(q, own)
  }

  lemma BlendedAlike(b: Binding, q: Query, table: seq<Row>, admits: Row -> bool, m: Row)
    requires Distinct(table) && KeyedById(table) && m in table && VisibleMemory(b, m) && admits(m)
    requires SameRange(b, q, table, admits) && !LostToPool(b, q, table, m)
    ensures Blended(q, table, admits, m) == Blended(q, Own(b, table), admits, m)
  {
    hide VectorScore, LostToPool, Own, VisibleMemory, Distinct, KeyedById, Filter, Lowest, Highest, Normalized, Blend;
    VectorScoresExactly(b, q, table, admits, m);
  }

  /** No visible row that the search admits is lost. */
  ghost predicate NothingLost(b: Binding, q: Query, table: seq<Row>, args: SearchArgs) {
    forall m :: m in table && VisibleMemory(b, m) && Admitted(b, args.types)(m) ==> !LostToPool(b, q, table, m)
  }

  /** A row that is shown is as similar as any candidate. */
  ghost predicate ShowsBest(b: Binding, q: Query, table: seq<Row>, args: SearchArgs) {
    var s := ScoringIn(q, table, Admitted(b, args.types));
    exists m :: m in Shown(b, q, table, args) && s.similarity(m) == Best(s, Considered(b, q, table, args))
  }

  lemma ConsideredMembers(b: Binding, q: Query, table: seq<Row>, args: SearchArgs)
    requires Distinct(table) && KeyedById(table)
    ensures Distinct(Considered(b, q, table, args)) && KeyedById(Considered(b, q, table, args))
    ensures forall m :: m in Considered(b, q, table, args) <==>
      m in table && Admitted(b, args.types)(m) && Reached(q, table, Admitted(b, args.types))(m)
  {
    hide Filter, Distinct, Reached, Admits;
    FilterMembers(CandidateFor(b, Reached(q, table, Admitted(b, args.types)), args), table);
    assert RequestedState(StateFilter(args)) == Active;
  }

  lemma ShownIsOwn(b: Binding, q: Query, table: seq<Row>, args: SearchArgs)
    requires Distinct(table) && KeyedById(table) && NothingLost(b, q, table, args)
    ensures forall m :: m in Considered(b, q, Own(b, table), args) <==> m in Shown(b, q, table, args)
  {
    hide Shown, Considered, Own, VisibleMemory, Distinct, KeyedById, LostToPool, Admitted, Reached;
    OwnIsTable(b, table);
    ShownMembers(b, q, table, args);
    ConsideredMembers(b, q, Own(b, table), args);
    forall m | m in table && VisibleMemory(b, m) && Admitted(b, args.types)(m)
      ensures Reached(q, table, Admitted(b, args.types))(m) <==> Reached(q, Own(b, table), Admitted(b, args.types))(m)
    {
      ReachedExactly(b, q, table, Admitted(b, args.types), m);
    }
  }

  lemma SimilarityIn(q: Query, table: seq<Row>, admits: Row -> bool, m: Row)
    ensures var s := ScoringIn(q, table, admits);
      && s.similarity(m) == Blended(q, table, admits, m) && s.similarityOnly == q.similarityOnly
      && s.refinement(m) == q.refinement(m, Blended(q, table, admits, m))
      && s.total(m) == q.total(m, Blended(q, table, admits, m))
  {
  }

  lemma SameBests(b: Binding, q: Query, table: seq<Row>, args: SearchArgs)
    requires Distinct(table) && KeyedById(table) && NothingLost(b, q, table, args)
    requires SameRange(b, q, table, Admitted(b, args.types)) && ShowsBest(b, q, table, args)
    ensures Best(ScoringIn(q, table, Admitted(b, args.types)), Considered(b, q, table, args))
      == Best(ScoringIn(q, Own(b, table), Admitted(b, args.types)), Considered(b, q, Own(b, table), args))
  {
    hide Shown, Considered, Own, VisibleMemory, Distinct, KeyedById, LostToPool, Admitted, Reached, Best, ScoringIn, Blended, SameRange;
    var admits, own := Admitted(b, args.types), Own(b, table);
    var s, t := ScoringIn(q, table, admits), ScoringIn(q, own, admits);
    OwnIsTable(b, table);
    ShownMembers(b, q, table, args);
    ShownIsOwn(b, q, table, args);
    ConsideredMembers(b, q, table, args);
    ConsideredMembers(b, q, own, args);
    forall m | m in Shown(b, q, table, args) ensures s.similarity(m) == t.similarity(m) {
      BlendedAlike(b, q, table, admits, m);
      SimilarityIn(q, table, admits, m);
      SimilarityIn(q, own, admits, m);
    }
    var m :| m in Shown(b, q, table, args) && s.similarity(m) == Best(s, Considered(b, q, table, args));
    BestIsMaximum(s, Considered(b, q, table, args));
    BestIsMaximum(t, Considered(b, q, own, args));
  }

  /** Rows with the same scores in two scorings are ordered alike, given one best similarity or no fading. */
  lemma SameScoresSameOrder(s: Scoring, t: Scoring, x: real, y: real, a: Row, c: Row)
    requires s.similarityOnly == t.similarityOnly && (s.similarityOnly || x == y)
    requires s.similarity(a) == t.similarity(a) && s.refinement(a) == t.refinement(a) && s.total(a) == t.total(a)
    requires s.similarity(c) == t.similarity(c) && s.refinement(c) == t.refinement(c) && s.total(c) == t.total(c)
    ensures RankedBefore(s, x, a, c) <==> RankedBefore(t, y, a, c)
  {
    hide Fade;
  }

  /**
   * It is enough that no visible row is lost to the pool, that the other rows do not extend the range of the keyword
   * ranks, and that a visible row is as similar as any candidate or scores do not fade.
   */
  lemma SearchIsIsolated(b: Binding, q: Query, table: seq<Row>, args: SearchArgs)
    requires Distinct(table) && KeyedById(table) && NothingLost(b, q, table, args)
    requires SameRange(b, q, table, Admitted(b, args.types))
    requires q.similarityOnly || Shown(b, q, table, args) == [] || ShowsBest(b, q, table, args)
    ensures Isolated(b, q, table, args)
  {
    hide Shown, Considered, Own, VisibleMemory, Distinct, KeyedById, LostToPool, Admitted, Reached, Best, ScoringIn, Blended,
      SameRange, Isolated, ShowsBest, RankedBefore;
    var admits, own := Admitted(b, args.types), Own(b, table);
    var s, t := ScoringIn(q, table, admits), ScoringIn(q, own, admits);
    ShownMembers(b, q, table, args);
    forall m | m in table && VisibleMemory(b, m) && admits(m)
      ensures Reached(q, table, admits)(m) <==> Reached(q, own, admits)(m)
    {
      ReachedExactly(b, q, table, admits, m);
    }
    if !q.similarityOnly && Shown(b, q, table, args) != [] {
      SameBests(b, q, table, args);
    }
    forall a, c | a in Shown(b, q, table, args) && c in Shown(b, q, table, args)
      ensures OrderIn(b, q, table, args)(a, c) <==> OrderIn(b, q, own, args)(a, c)
    {
      BlendedAlike(b, q, table, admits, a);
      BlendedAlike(b, q, table, admits, c);
      SimilarityIn(q, table, admits, a);
      SimilarityIn(q, own, admits, a);
      SimilarityIn(q, table, admits, c);
      SimilarityIn(q, own, admits, c);
      SameScoresSameOrder(s, t, Best(s, Considered(b, q, table, args)), Best(t, Considered(b, q, own, args)), a, c);
    }
    SearchIsIsolatedExactly(b, q, table, args);
  }

  // ----- searches of owned rows

  /** A search of owned rows is isolated unless a row of its own is lost to the pool. */
  lemma OwnedSearchIsIsolated(b: Binding, q: Query, table: seq<Row>, args: SearchArgs)
    requires Distinct(table) && KeyedById(table) && !b.includeUnowned && NothingLost(b, q, table, args)
    ensures Isolated(b, q, table, args)
  {
    hide Shown, Considered, Filter, Distinct, KeyedById, LostToPool, Reached, Best, ScoringIn, Isolated, Lowest, Highest, NothingLost;
    var admits := Admitted(b, args.types);
    FilterCompose(Visible(b), Matched(q, admits), Matched(q, admits), table);
    ShownMembers(b, q, table, args);
    ConsideredMembers(b, q, table, args);
    if Shown(b, q, table, args) != [] {
      assert Shown(b, q, table, args)[0] in Considered(b, q, table, args);
      BestIsMaximum(ScoringIn(q, table, admits), Considered(b, q, table, args));
    }
    SearchIsIsolated(b, q, table, args);
  }

  /** Nothing is lost to a pool with room for every vector. */
  lemma RoomyPoolLosesNothing(b: Binding, q: Query, table: seq<Row>, args: SearchArgs)
    requires q.poolSize.Some? ==> |Filter(Indexed(q), table)| <= q.poolSize.value
    ensures NothingLost(b, q, table, args)
  {
    hide CrowdedOut, Filter, VisibleMemory, Admitted;
    forall m | m in table ensures !LostToPool(b, q, table, m) {
      if q.vector(m).Some? {
        RoomForAll(q, table, m);
      }
    }
  }

  /** A visible row that only its vector reaches, once lost to the pool, is missing. */
  lemma LostRowIsMissing(b: Binding, q: Query, table: seq<Row>, args: SearchArgs, m: Row)
    requires Distinct(table) && KeyedById(table) && m in table && VisibleMemory(b, m) && Admitted(b, args.types)(m)
    requires LostToPool(b, q, table, m) && q.keyword(m).None?
    ensures m !in Shown(b, q, table, args) && m in Shown(b, q, Own(b, table), args) && !Isolated(b, q, table, args)
  {
    hide Shown, Own, VisibleMemory, Distinct, KeyedById, Admitted, Isolated, OrderIn, CrowdedOut, Pool;
    var own, admits := Own(b, table), Admitted(b, args.types);
    OwnIsTable(b, table);
    InPoolExactly(q, own, m);
    ReachedExactly(b, q, table, admits, m);
    ShownMembers(b, q, table, args);
    ShownMembers(b, q, own, args);
    SearchIsIsolatedExactly(b, q, table, args);
  }

  // ----- three ways in which rows that are never shown change a search

  function Someones(id: nat, agentId: Option<string>): Row {
    Row(id, Agent, agentId, Active, 0, 0, 0)
  }

  function Others(n: nat): (rows: seq<Row>)
    ensures |rows| == n && forall i :: 0 <= i < n ==> rows[i] == Someones(i, Some("b"))
  {
    seq(n, i requires 0 <= i < n => Someones(i, Some("b")))
  }

  /** A search of owned rows, with the store's pool size, that other agents' rows change. */
  ghost predicate OwnedSearchDisturbed(b: Binding, q: Query, table: seq<Row>, args: SearchArgs) {
    && Distinct(table) && KeyedById(table) && q.poolSize == Some(VECTOR_CANDIDATE_POOL_SIZE) && !b.includeUnowned
    && !Isolated(b, q, table, args)
  }

  /** A thousand rows of another agent push a row out of its owner's search, which reads no row but the owner's. */
  lemma OthersCrowdOutOwnRow()
    ensures exists b, q, table, args :: OwnedSearchDisturbed(b, q, table, args)
  {
    hide OwnedSearchDisturbed;
    var q := Query(Some(VECTOR_CANDIDATE_POOL_SIZE),
                   (m: Row) => Some(if m.id < VECTOR_CANDIDATE_POOL_SIZE then 0.9 else 0.8), (m: Row) => true, (m: Row) => None,
                   false, (m: Row, x: real) => 0.0, (m: Row, x: real) => x);
    CrowdDisturbs(Binding("a", Agent, false), q, Someones(VECTOR_CANDIDATE_POOL_SIZE, Some("a")), SearchArgs(1, false, None));
  }

  lemma CrowdDisturbs(b: Binding, q: Query, mine: Row, args: SearchArgs)
    requires b == Binding("a", Agent, false) && mine == Someones(VECTOR_CANDIDATE_POOL_SIZE, Some("a")) && args.types == None
    requires q.poolSize == Some(VECTOR_CANDIDATE_POOL_SIZE)
    requires q.current(mine) && q.vector(mine) == Some(0.8) && q.keyword(mine).None?
    requires forall i :: 0 <= i < VECTOR_CANDIDATE_POOL_SIZE ==> q.vector(Someones(i, Some("b"))) == Some(0.9)
    ensures OwnedSearchDisturbed(b, q, Others(VECTOR_CANDIDATE_POOL_SIZE) + [mine], args)
  {
    hide Isolated, LostToPool;
    CrowdLoses(b, q, VECTOR_CANDIDATE_POOL_SIZE, mine);
    assert [Agent][0] == Agent;
    LostRowIsMissing(b, q, Others(VECTOR_CANDIDATE_POOL_SIZE) + [mine], args, mine);
  }

  lemma CrowdLoses(b: Binding, q: Query, n: nat, mine: Row)
    requires b == Binding("a", Agent, false) && n > 1 && mine == Someones(n, Some("a"))
    requires q.poolSize == Some(n) && q.current(mine) && q.vector(mine) == Some(0.8)
    requires forall i :: 0 <= i < n ==> q.vector(Someones(i, Some("b"))) == Some(0.9)
    ensures var table := Others(n) + [mine];
      Distinct(table) && KeyedById(table) && LostToPool(b, q, table, mine)
  {
    hide Filter;
    var others := Others(n);
    assert [Agent][0] == Agent;
    FilterAppend(Rival(q, mine), others, [mine]);
    FilterAll(Rival(q, mine), others);
    FilterAppend(Visible(b), others, [mine]);
    FilterNone(Visible(b), others);
    FilterAll(Visible(b), [mine]);
    FilterMembers(Rival(q, mine), [mine]);
    assert Own(b, others + [mine]) == [] + [mine] == [mine];
  }

  /** With the row of another agent in the table the two visible rows change places. */
  ghost predicate Swapped(b: Binding, q: Query, hidden: Row, x: Row, y: Row, args: SearchArgs) {
    var table := [hidden, x, y];
    && Distinct(table) && KeyedById(table) && !VisibleMemory(b, hidden)
    && Shown(b, q, table, args) == [x, y] && OrderIn(b, q, table, args)(x, y)
    && Shown(b, q, Own(b, table), args) == [x, y] && OrderIn(b, q, Own(b, table), args)(y, x)
  }

  lemma SwappedIsNotIsolated(b: Binding, q: Query, hidden: Row, x: Row, y: Row, args: SearchArgs)
    requires Swapped(b, q, hidden, x, y, args)
    ensures !Isolated(b, q, [hidden, x, y], args)
  {
    hide Shown, OrderIn, Own, Isolated, KeyedById, Distinct, VisibleMemory, Reached, Admitted;
    var table := [hidden, x, y];
    OwnIsTable(b, table);
    ShownMembers(b, q, Own(b, table), args);
    assert [x, y][0] == x && [x, y][1] == y;
    SearchIsIsolatedExactly(b, q, table, args);
  }

  /** A row of another agent, and two rows that nobody owns. */
  ghost predicate Cast(b: Binding, hidden: Row, x: Row, y: Row, args: SearchArgs) {
    && b == Binding("a", Agent, true) && args.types == None
    && hidden == Someones(0, Some("b")) && x == Someones(1, None) && y == Someones(2, None)
  }

  lemma CastIsShown(b: Binding, q: Query, hidden: Row, x: Row, y: Row, args: SearchArgs)
    requires Cast(b, hidden, x, y, args)
    requires var admits := Admitted(b, args.types);
      && Reached(q, [hidden, x, y], admits)(x) && Reached(q, [hidden, x, y], admits)(y)
      && Reached(q, [x, y], admits)(x) && Reached(q, [x, y], admits)(y)
    ensures var table := [hidden, x, y];
      && Distinct(table) && KeyedById(table) && Own(b, table) == [x, y]
      && !VisibleMemory(b, hidden) && VisibleMemory(b, x) && VisibleMemory(b, y)
      && Shown(b, q, table, args) == [x, y] && Shown(b, q, [x, y], args) == [x, y]
  {
    hide Filter, Reached;
    assert [Agent][0] == Agent;
    assert [hidden] + [x, y] == [hidden, x, y];
    FilterAppend(Visible(b), [hidden], [x, y]);
    FilterNone(Visible(b), [hidden]);
    FilterAll(Visible(b), [x, y]);
    var shared, own := Reached(q, [hidden, x, y], Admitted(b, args.types)), Reached(q, [x, y], Admitted(b, args.types));
    FilterAppend(VisibleCandidateFor(b, shared, args), [hidden], [x, y]);
    FilterNone(VisibleCandidateFor(b, shared, args), [hidden]);
    FilterAll(VisibleCandidateFor(b, shared, args), [x, y]);
    FilterAll(VisibleCandidateFor(b, own, args), [x, y]);
  }

  /** With few rows every vector is scored. */
  lemma EveryVectorScores(q: Query, table: seq<Row>, admits: Row -> bool, m: Row)
    requires Distinct(table) && KeyedById(table) && m in table && admits(m) && q.current(m)
    requires q.poolSize.Some? ==> |table| <= q.poolSize.value
    requires q.vector(m).Some? ==> q.vector(m).value > 0.0
    ensures VectorScore(q, table, admits, m) == q.vector(m)
  {
    hide Filter, Pool, Distinct, CrowdedOut;
    FilterMembers(Indexed(q), table);
    if q.vector(m).Some? {
      RoomForAll(q, table, m);
      InPoolExactly(q, table, m);
    }
  }

  /** Vectors only: the other agent's row is the nearest, and against it the refinement of the third has faded. */
  ghost predicate FadingQuery(q: Query) {
    var hidden, x, y := Someones(0, Some("b")), Someones(1, None), Someones(2, None);
    && !q.similarityOnly && q.poolSize == Some(VECTOR_CANDIDATE_POOL_SIZE)
    && (forall m :: q.current(m) && q.keyword(m).None?)
    && q.vector(hidden) == Some(0.94) && q.vector(x) == Some(0.90) && q.vector(y) == Some(0.899)
    && q.refinement(x, 0.90) == 0.0 && q.refinement(y, 0.899) == 0.01
  }

  lemma VectorsDecide(b: Binding, q: Query, table: seq<Row>, types: Option<set<nat>>, m: Row)
    requires FadingQuery(q) && Distinct(table) && KeyedById(table) && |table| <= 3 && m in table && Admitted(b, types)(m)
    requires q.vector(m).Some? && q.vector(m).value > 0.0
    ensures Reached(q, table, Admitted(b, types))(m) && Blended(q, table, Admitted(b, types), m) == q.vector(m).value
  {
    hide Pool, Distinct, KeyedById, Admitted, Filter;
    EveryVectorScores(q, table, Admitted(b, types), m);
  }

  lemma BestIs(s: Scoring, rows: seq<Row>, m: Row)
    requires Distinct(rows) && KeyedById(rows) && m in rows && forall x :: x in rows ==> s.similarity(x) <= s.similarity(m)
    ensures Best(s, rows) == s.similarity(m)
  {
    hide Best, Distinct, KeyedById;
    BestIsMaximum(s, rows);
  }

  lemma RefinementFades(s: Scoring, x: Row, y: Row)
    requires !s.similarityOnly && s.similarity(x) == 0.90 && s.similarity(y) == 0.899
    requires s.refinement(x) == 0.0 && s.refinement(y) == 0.01
    ensures RankedBefore(s, 0.94, x, y) && RankedBefore(s, 0.90, y, x)
  {
  }

  lemma FadingSwaps(b: Binding, q: Query, hidden: Row, x: Row, y: Row, args: SearchArgs)
    requires FadingQuery(q) && Cast(b, hidden, x, y, args)
    ensures Swapped(b, q, hidden, x, y, args)
  {
    hide Shown, Considered, Own, KeyedById, Distinct, Reached, Best, ScoringIn, Blended, RankedBefore, Someones, VisibleMemory;
    var table, own, admits := [hidden, x, y], [x, y], Admitted(b, args.types);
    CastIsAdmitted(b, hidden, x, y, args);
    CastIsTable(b, hidden, x, y, args);
    VectorsDecide(b, q, table, args.types, hidden);
    VectorsDecide(b, q, table, args.types, x);
    VectorsDecide(b, q, table, args.types, y);
    VectorsDecide(b, q, own, args.types, x);
    VectorsDecide(b, q, own, args.types, y);
    CastIsShown(b, q, hidden, x, y, args);
    ConsideredMembers(b, q, table, args);
    ConsideredMembers(b, q, own, args);
    var s, t := ScoringIn(q, table, admits), ScoringIn(q, own, admits);
    SimilarityIn(q, table, admits, hidden);
    SimilarityIn(q, table, admits, x);
    SimilarityIn(q, table, admits, y);
    SimilarityIn(q, own, admits, x);
    SimilarityIn(q, own, admits, y);
    BestIs(s, Considered(b, q, table, args), hidden);
    BestIs(t, Considered(b, q, own, args), x);
    RefinementFades(s, x, y);
    RefinementFades(t, x, y);
  }

  lemma CastIsAdmitted(b: Binding, hidden: Row, x: Row, y: Row, args: SearchArgs)
    requires Cast(b, hidden, x, y, args)
    ensures var admits := Admitted(b, args.types); admits(hidden) && admits(x) && admits(y)
  {
    assert [Agent][0] == Agent;
  }

  lemma CastIsTable(b: Binding, hidden: Row, x: Row, y: Row, args: SearchArgs)
    requires Cast(b, hidden, x, y, args)
    ensures Distinct([hidden, x, y]) && KeyedById([hidden, x, y]) && Distinct([x, y]) && KeyedById([x, y])
    ensures hidden in [hidden, x, y] && x in [hidden, x, y] && y in [hidden, x, y] && x in [x, y] && y in [x, y]
  {
    assert [hidden, x, y][0] == hidden && [hidden, x, y][1] == x && [hidden, x, y][2] == y && [x, y][0] == x && [x, y][1] == y;
  }

  /** One vector, and two texts of which the other agent's matches better. */
  ghost predicate RescaledQuery(q: Query) {
    var hidden, x, y := Someones(0, Some("b")), Someones(1, None), Someones(2, None);
    && q.similarityOnly && q.poolSize == Some(VECTOR_CANDIDATE_POOL_SIZE)
    && (forall m :: q.current(m)) && (forall m, similarity :: q.total(m, similarity) == similarity)
    && q.vector(hidden) == None && q.vector(x) == Some(0.5) && q.vector(y) == None
    && q.keyword(hidden) == Some(0.0) && q.keyword(x) == None && q.keyword(y) == Some(1.0)
  }

  lemma CastMatches(b: Binding, q: Query, hidden: Row, x: Row, y: Row, args: SearchArgs)
    requires RescaledQuery(q) && Cast(b, hidden, x, y, args)
    ensures var p := Matched(q, Admitted(b, args.types));
      p(y) && Filter(p, [hidden, x, y]) == [hidden, y] && Filter(p, [x, y]) == [y]
  {
    hide Filter, Someones;
    var p := Matched(q, Admitted(b, args.types));
    CastIsAdmitted(b, hidden, x, y, args);
    assert [hidden] + [x] + [y] == [hidden, x, y] && [x] + [y] == [x, y];
    FilterAll(p, [hidden]);
    FilterNone(p, [x]);
    FilterAll(p, [y]);
    FilterAppend(p, [hidden] + [x], [y]);
    FilterAppend(p, [hidden], [x]);
    FilterAppend(p, [x], [y]);
  }

  lemma RangeOf(q: Query, a: Row, c: Row)
    requires Rank(q, a) <= Rank(q, c)
    ensures Lowest(q, [c]) == Highest(q, [c]) == Rank(q, c)
    ensures Lowest(q, [a, c]) == Rank(q, a) && Highest(q, [a, c]) == Rank(q, c)
  {
    hide Rank;
    assert [a, c][1..] == [c];
  }

  lemma Scaled()
    ensures Normalized(1.0, 0.0, 1.0) == 0.0 && Normalized(1.0, 1.0, 1.0) == 1.0
  {
  }

  lemma RanksAreRescaled(b: Binding, q: Query, hidden: Row, x: Row, y: Row, args: SearchArgs)
    requires RescaledQuery(q) && Cast(b, hidden, x, y, args)
    ensures KeywordScore(q, [hidden, x, y], Admitted(b, args.types), y) == Some(0.0)
    ensures KeywordScore(q, [x, y], Admitted(b, args.types), y) == Some(1.0)
  {
    hide Filter, Someones, Lowest, Highest, Normalized, Admitted;
    CastMatches(b, q, hidden, x, y, args);
    RangeOf(q, hidden, y);
    Scaled();
  }

  lemma RescalingSwaps(b: Binding, q: Query, hidden: Row, x: Row, y: Row, args: SearchArgs)
    requires RescaledQuery(q) && Cast(b, hidden, x, y, args)
    ensures Swapped(b, q, hidden, x, y, args)
  {
    hide Shown, Considered, Own, KeyedById, Distinct, Best, ScoringIn, VectorScore, KeywordScore, Someones, VisibleMemory;
    var table, own, admits := [hidden, x, y], [x, y], Admitted(b, args.types);
    CastIsAdmitted(b, hidden, x, y, args);
    CastIsTable(b, hidden, x, y, args);
    RanksAreRescaled(b, q, hidden, x, y, args);
    EveryVectorScores(q, table, admits, x);
    EveryVectorScores(q, table, admits, y);
    EveryVectorScores(q, own, admits, x);
    EveryVectorScores(q, own, admits, y);
    NoKeywordScore(q, table, admits, x);
    NoKeywordScore(q, own, admits, x);
    CastIsShown(b, q, hidden, x, y, args);
    SimilarityIn(q, table, admits, x);
    SimilarityIn(q, table, admits, y);
    SimilarityIn(q, own, admits, x);
    SimilarityIn(q, own, admits, y);
  }

  lemma NoKeywordScore(q: Query, table: seq<Row>, admits: Row -> bool, m: Row)
    requires q.keyword(m).None?
    ensures KeywordScore(q, table, admits, m) == None
  {
  }

  ghost predicate SearchDisturbed(b: Binding, q: Query, table: seq<Row>, args: SearchArgs) {
    Distinct(table) && KeyedById(table) && |table| == 3 && !Isolated(b, q, table, args)
  }

  /** Two rows that nobody owns change places because another agent's row is nearer. */
  lemma NearerRowReorders()
    ensures exists b, q, table, args :: FadingQuery(q) && SearchDisturbed(b, q, table, args)
  {
    hide Isolated, Swapped;
    var b, args := Binding("a", Agent, true), SearchArgs(1, false, None);
    var hidden, x, y := Someones(0, Some("b")), Someones(1, None), Someones(2, None);
    var q := Query(Some(VECTOR_CANDIDATE_POOL_SIZE),
                   (m: Row) => Some(if m.id == 0 then 0.94 else if m.id == 1 then 0.90 else 0.899), (m: Row) => true,
                   (m: Row) => None, false, (m: Row, similarity: real) => if m.id == 2 then 0.01 else 0.0,
                   (m: Row, similarity: real) => similarity);
    FadingSwaps(b, q, hidden, x, y, args);
    SwappedIsNotIsolated(b, q, hidden, x, y, args);
    CastIsTable(b, hidden, x, y, args);
    assert SearchDisturbed(b, q, [hidden, x, y], args);
  }

  /** Or because the text of another agent's row is a better match. */
  lemma BetterMatchReorders()
    ensures exists b, q, table, args :: RescaledQuery(q) && SearchDisturbed(b, q, table, args)
  {
    hide Isolated, Swapped;
    var b, args := Binding("a", Agent, true), SearchArgs(1, false, None);
    var hidden, x, y := Someones(0, Some("b")), Someones(1, None), Someones(2, None);
    var q := Query(Some(VECTOR_CANDIDATE_POOL_SIZE), (m: Row) => if m.id == 1 then Some(0.5) else None, (m: Row) => true,
                   (m: Row) => if m.id == 0 then Some(0.0) else if m.id == 2 then Some(1.0) else None, true,
                   (m: Row, similarity: real) => 0.0, (m: Row, similarity: real) => similarity);
    RescalingSwaps(b, q, hidden, x, y, args);
    SwappedIsNotIsolated(b, q, hidden, x, y, args);
    CastIsTable(b, hidden, x, y, args);
    assert SearchDisturbed(b, q, [hidden, x, y], args);
  }
}
