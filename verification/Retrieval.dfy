/**
 * What a binding may read, and its list and search calls (hosts/memory-mcp/src/memory_tools.rs) over the store's list
 * and search (plugins/memory/src/storage/sqlite_store.rs).
 */
module Retrieval {
  import opened Wrappers
  import opened Ordering
  import opened Scopes
  import opened Candidates
  import opened Ranking

  datatype Binding = Binding(agentId: string, readScope: MemoryScope, includeUnowned: bool)

  predicate ReadableOwner(b: Binding, m: Row) {
    match m.agentId
    case Some(agentId) => agentId == b.agentId
    case None => b.includeUnowned
  }

  predicate VisibleMemory(b: Binding, m: Row) {
    && m.scope in b.readScope.VisibleScopes()
    && ReadableOwner(b, m)
    && m.state != Deleted
  }

  /** Visibility is rank at or above the read scope, a readable owner, and not deleted. */
  lemma VisibleExactly(b: Binding, m: Row)
    ensures VisibleMemory(b, m) <==>
      && b.readScope.Rank() <= m.scope.Rank()
      && (m.agentId == Some(b.agentId) || (m.agentId == None && b.includeUnowned))
      && m.state != Deleted
  {
  }

  /** Widening a binding, by a lower read scope or by unowned rows, hides nothing that was visible. */
  lemma WideningHidesNothing(b: Binding, wider: Binding, m: Row)
    requires wider.agentId == b.agentId && wider.readScope.Rank() <= b.readScope.Rank()
    requires b.includeUnowned ==> wider.includeUnowned
    ensures VisibleMemory(b, m) ==> VisibleMemory(wider, m)
  {
  }

  // ----- list

  datatype ListFilter = ListFilter(
    scope: MemoryScope,
    state: Option<MemoryState>,
    types: Option<set<nat>>,
    agentId: Option<string>,
    limit: Option<nat>)

  predicate Matches(f: ListFilter, m: Row) {
    && m.scope == f.scope
    && (f.state.Some? ==> m.state == f.state.value)
    && (f.types.Some? ==> m.memoryType in f.types.value)
    && (f.agentId.Some? ==> m.agentId == f.agentId)
  }

  function Limit<T>(limit: Option<nat>, xs: seq<T>): seq<T> {
    if limit.Some? then Take(limit.value, xs) else xs
  }

  function Matching(f: ListFilter): Row -> bool {
    m => Matches(f, m)
  }

  /** The store's list: `table` holds the rows by ascending creation time. */
  function StoreList(table: seq<Row>, f: ListFilter): seq<Row> {
    Limit(f.limit, Filter(Matching(f), table))
  }

  function Visible(b: Binding): Row -> bool {
    m => VisibleMemory(b, m)
  }

  /** The rows that a list call asks for. */
  predicate Asked(b: Binding, state: Option<MemoryState>, types: Option<set<nat>>, m: Row) {
    && VisibleMemory(b, m)
    && (state.Some? ==> m.state == state.value)
    && (types.Some? ==> m.memoryType in types.value)
  }

  function AskedFor(b: Binding, state: Option<MemoryState>, types: Option<set<nat>>): Row -> bool {
    m => Asked(b, state, types, m)
  }

  /** A binding that reads several scopes or unowned rows. */
  predicate Widened(b: Binding) {
    |b.readScope.VisibleScopes()| > 1 || b.includeUnowned
  }

  function PageFilter(b: Binding, scope: MemoryScope, state: Option<MemoryState>, types: Option<set<nat>>, limit: Option<nat>): ListFilter {
    ListFilter(scope, state, types, if b.includeUnowned then None else Some(b.agentId), if Widened(b) then None else limit)
  }

  /** The reference form: every visible row, ranked once, the first of them. */
  function RankedVisible(b: Binding, table: seq<Row>, state: Option<MemoryState>, types: Option<set<nat>>, limit: Option<nat>): seq<Row> {
    Limit(limit, Sort(ByUpdate(), Filter(AskedFor(b, state, types), table)))
  }

  /** The rows gathered from the first `n` scopes. */
  ghost predicate Gathered(b: Binding, table: seq<Row>, state: Option<MemoryState>, types: Option<set<nat>>, n: nat, memories: seq<Row>)
    requires n <= |b.readScope.VisibleScopes()|
  {
    && Distinct(memories)
    && forall m :: m in memories <==> m in table && Asked(b, state, types, m) && m.scope in b.readScope.VisibleScopes()[..n]
  }

  lemma PageIsAsked(b: Binding, table: seq<Row>, scope: MemoryScope, state: Option<MemoryState>, types: Option<set<nat>>, limit: Option<nat>)
    requires Distinct(table) && Widened(b) && scope in b.readScope.VisibleScopes()
    ensures var page := Filter(Visible(b), StoreList(table, PageFilter(b, scope, state, types, limit)));
      Distinct(page) && forall m :: m in page <==> m in table && Asked(b, state, types, m) && m.scope == scope
  {
    hide Distinct;
    var f := PageFilter(b, scope, state, types, limit);
    FilterMembers(Matching(f), table);
    FilterMembers(Visible(b), StoreList(table, f));
  }

  lemma GatherPage(b: Binding, table: seq<Row>, state: Option<MemoryState>, types: Option<set<nat>>, n: nat, memories: seq<Row>, page: seq<Row>)
    requires n < |b.readScope.VisibleScopes()| && Gathered(b, table, state, types, n, memories)
    requires Distinct(page)
    requires forall m :: m in page <==> m in table && Asked(b, state, types, m) && m.scope == b.readScope.VisibleScopes()[n]
    ensures Gathered(b, table, state, types, n + 1, memories + page)
  {
  }

  method ListVisibleMemories(b: Binding, table: seq<Row>, state: Option<MemoryState>, types: Option<set<nat>>, limit: Option<nat>)
    returns (memories: seq<Row>)
    requires Distinct(table) && KeyedById(table)
    ensures Widened(b) ==> memories == RankedVisible(b, table, state, types, limit)
    ensures !Widened(b) ==> memories == NarrowList(b, table, state, types, limit)
  {
    hide StoreList, Filter, Sort, KeyedById, Distinct, Gathered, Asked, VisibleMemory;
    var scopes := b.readScope.VisibleScopes();
    var mergeNeeded := |scopes| > 1 || b.includeUnowned;
    memories := [];
    NothingGathered(b, table, state, types);
    for i := 0 to |scopes|
      invariant mergeNeeded ==> Gathered(b, table, state, types, i, memories)
      invariant !mergeNeeded && i == 0 ==> memories == []
      invariant !mergeNeeded && i == 1 ==> memories == NarrowList(b, table, state, types, limit)
    {
      var page := StoreList(table, PageFilter(b, scopes[i], state, types, limit));
      page := Filter(Visible(b), page);
      if mergeNeeded {
        PageIsAsked(b, table, scopes[i], state, types, limit);
        GatherPage(b, table, state, types, i, memories, page);
      } else {
        assert [] + page == page;
      }
      memories := memories + page;
    }
    if mergeNeeded {
      GatheredIsRanked(b, table, state, types, memories);
      memories := Sort(ByUpdate(), memories);
      if limit.Some? {
        memories := Take(limit.value, memories);
      }
    }
  }

  lemma NothingGathered(b: Binding, table: seq<Row>, state: Option<MemoryState>, types: Option<set<nat>>)
    ensures Gathered(b, table, state, types, 0, [])
  {
  }

  lemma GatheredIsRanked(b: Binding, table: seq<Row>, state: Option<MemoryState>, types: Option<set<nat>>, memories: seq<Row>)
    requires Distinct(table) && KeyedById(table)
    requires Gathered(b, table, state, types, |b.readScope.VisibleScopes()|, memories)
    ensures Sort(ByUpdate(), memories) == Sort(ByUpdate(), Filter(AskedFor(b, state, types), table))
  {
    hide Sort, KeyedById, Distinct;
    var scopes := b.readScope.VisibleScopes();
    assert scopes[..|scopes|] == scopes;
    var reference := Filter(AskedFor(b, state, types), table);
    FilterMembers(AskedFor(b, state, types), table);
    NewerIsTotal(table);
    StrictTotalSubset(ByUpdate(), memories, table);
    SortDependsOnMembers(ByUpdate(), memories, reference);
  }

  /** What a widened list call answers, and in which order. */
  lemma ListedExactly(b: Binding, table: seq<Row>, state: Option<MemoryState>, types: Option<set<nat>>, m: Row)
    requires Distinct(table) && KeyedById(table)
    ensures var listed := RankedVisible(b, table, state, types, None);
      && (m in listed <==>
            && m in table && m.scope.Rank() >= b.readScope.Rank() && m.state != Deleted
            && (m.agentId == Some(b.agentId) || (m.agentId == None && b.includeUnowned))
            && (state == None || state == Some(m.state)) && (types == None || m.memoryType in types.value))
      && forall i, j :: 0 <= i < j < |listed| ==>
           || listed[i].updatedAt > listed[j].updatedAt
           || (listed[i].updatedAt == listed[j].updatedAt && listed[i].id > listed[j].id)
  {
    hide Sort, Filter, KeyedById, Distinct, StrictTotalOn;
    var asked := Filter(AskedFor(b, state, types), table);
    FilterMembers(AskedFor(b, state, types), table);
    NewerIsTotal(table);
    StrictTotalSubset(ByUpdate(), asked, table);
    SortSorts(ByUpdate(), asked);
    SameMembers(Sort(ByUpdate(), asked), asked);
    VisibleExactly(b, m);
    var listed := RankedVisible(b, table, state, types, None);
    forall i, j | 0 <= i < j < |listed|
      ensures listed[i].updatedAt > listed[j].updatedAt || (listed[i].updatedAt == listed[j].updatedAt && listed[i].id > listed[j].id)
    {
      assert ByUpdate()(listed[i], listed[j]);
    }
  }

  // ----- the binding that is not widened

  /** One scope, owned rows only: the store truncates, then deleted rows are dropped. */
  function NarrowList(b: Binding, table: seq<Row>, state: Option<MemoryState>, types: Option<set<nat>>, limit: Option<nat>): seq<Row> {
    Filter(Visible(b), StoreList(table, PageFilter(b, b.readScope, state, types, limit)))
  }

  /** The rows that an unwidened list call matches, and which of them it wants. */
  lemma NarrowMatches(b: Binding, state: Option<MemoryState>, types: Option<set<nat>>, limit: Option<nat>, m: Row)
    requires !Widened(b) && Matches(PageFilter(b, b.readScope, state, types, limit), m)
    ensures VisibleMemory(b, m) <==> m.state != Deleted
  {
  }

  /**
   * An unwidened list with a limit returns the first visible rows, in order of creation, if and only if no deleted row
   * is among the first `limit` matching rows or every later matching row is deleted.
   */
  lemma NarrowListExactly(b: Binding, table: seq<Row>, state: Option<MemoryState>, types: Option<set<nat>>, n: nat)
    requires !Widened(b)
    ensures var matching := Filter(Matching(PageFilter(b, b.readScope, state, types, None)), table);
      NarrowList(b, table, state, types, Some(n)) == Take(n, Filter(AskedFor(b, state, types), table)) <==>
        || (forall m :: m in Take(n, matching) ==> m.state != Deleted)
        || (forall m :: m in matching[Min(n, |matching|)..] ==> m.state == Deleted)
  {
    hide Filter, VisibleMemory, Matches;
    var f := PageFilter(b, b.readScope, state, types, Some(n));
    var matching := Filter(Matching(f), table);
    SameMatching(b, state, types, n);
    FilterCompose(Matching(f), Visible(b), AskedFor(b, state, types), table) by {
      forall m ensures AskedFor(b, state, types)(m) == (Matching(f)(m) && Visible(b)(m)) {
        NarrowAsks(b, state, types, n, m);
      }
    }
    TruncateThenFilter(Visible(b), matching, n);
    FilterMembers(Matching(f), table);
    forall m | m in matching ensures VisibleMemory(b, m) <==> m.state != Deleted {
      NarrowMatches(b, state, types, Some(n), m);
    }
    assert forall m :: m in Take(n, matching) ==> m in matching;
    assert forall m :: m in matching[Min(n, |matching|)..] ==> m in matching;
  }

  lemma SameMatching(b: Binding, state: Option<MemoryState>, types: Option<set<nat>>, n: nat)
    ensures forall table: seq<Row> ::
      Filter(Matching(PageFilter(b, b.readScope, state, types, Some(n))), table)
      == Filter(Matching(PageFilter(b, b.readScope, state, types, None)), table)
  {
    hide Filter;
    var f, g := PageFilter(b, b.readScope, state, types, Some(n)), PageFilter(b, b.readScope, state, types, None);
    forall table: seq<Row> ensures Filter(Matching(f), table) == Filter(Matching(g), table) {
      SamePredicate(Matching(f), Matching(g), table);
    }
  }

  lemma NarrowAsks(b: Binding, state: Option<MemoryState>, types: Option<set<nat>>, n: nat, m: Row)
    requires !Widened(b)
    ensures Asked(b, state, types, m) <==> Matches(PageFilter(b, b.readScope, state, types, Some(n)), m) && VisibleMemory(b, m)
  {
  }

  ghost predicate FallsShort(b: Binding, table: seq<Row>) {
    && !Widened(b) && Distinct(table) && KeyedById(table) && |table| == 2
    && |Filter(AskedFor(b, None, None), table)| == 1
    && NarrowList(b, table, None, None, Some(1)) == []
  }

  /** A deleted row within the limit hides a visible one beyond it. */
  lemma NarrowListCanFallShort()
    ensures exists b: Binding, table: seq<Row> :: FallsShort(b, table)
  {
    hide Filter;
    var b := Binding("a", Agent, false);
    var gone := Row(0, Agent, Some("a"), Deleted, 0, 0, 0);
    var kept := Row(1, Agent, Some("a"), Active, 0, 1, 1);
    var table := [gone, kept];
    var f := PageFilter(b, Agent, None, None, Some(1));
    assert Matches(f, gone) && Matches(f, kept);
    FilterAll(Matching(f), table);
    assert Take(1, table) == [gone];
    FilterNone(Visible(b), [gone]);
    assert [Agent][0] == Agent;
    assert !Asked(b, None, None, gone) && Asked(b, None, None, kept);
    assert table == [gone] + [kept];
    FilterAppend(AskedFor(b, None, None), [gone], [kept]);
    FilterNone(AskedFor(b, None, None), [gone]);
    FilterAll(AskedFor(b, None, None), [kept]);
    assert FallsShort(b, table);
  }

  // ----- search

  datatype SearchArgs = SearchArgs(limit: nat, includeDormant: bool, types: Option<set<nat>>)

  /** No state at all when dormant memories are included. */
  function StateFilter(args: SearchArgs): Option<MemoryState> {
    if args.includeDormant then None else Some(Active)
  }

  /** The store searches active memories when no state is given. */
  function RequestedState(filter: Option<MemoryState>): MemoryState {
    if filter.Some? then filter.value else Active
  }

  /** The filters that the search hands to the store. */
  predicate Admits(b: Binding, state: MemoryState, types: Option<set<nat>>, m: Row) {
    && m.scope in b.readScope.VisibleScopes()
    && m.state == state
    && (types.Some? ==> m.memoryType in types.value)
    && (!b.includeUnowned ==> m.agentId == Some(b.agentId))
  }

  /** The rows that the store's search considers: `hit` says which rows the query text or embedding reaches. */
  predicate Candidate(b: Binding, hit: Row -> bool, args: SearchArgs, m: Row) {
    hit(m) && Admits(b, RequestedState(StateFilter(args)), args.types, m)
  }

  function CandidateFor(b: Binding, hit: Row -> bool, args: SearchArgs): Row -> bool {
    m => Candidate(b, hit, args, m)
  }

  function VisibleCandidateFor(b: Binding, hit: Row -> bool, args: SearchArgs): Row -> bool {
    m => Candidate(b, hit, args, m) && VisibleMemory(b, m)
  }

  /** The store's search, its results already truncated when only owned rows are read. */
  function StoreSearch(b: Binding, table: seq<Row>, s: Scoring, hit: Row -> bool, args: SearchArgs): seq<Row> {
    var ranked := Ranked(s, Filter(CandidateFor(b, hit, args), table));
    if b.includeUnowned then ranked else Take(args.limit, ranked)
  }

  function Search(b: Binding, table: seq<Row>, s: Scoring, hit: Row -> bool, args: SearchArgs): seq<Row> {
    Take(args.limit, Filter(Visible(b), StoreSearch(b, table, s, hit, args)))
  }

  /** The reference form: the visible candidates, ranked among themselves, the first of them. */
  function SearchVisible(b: Binding, table: seq<Row>, s: Scoring, hit: Row -> bool, args: SearchArgs): seq<Row> {
    Take(args.limit, Ranked(s, Filter(VisibleCandidateFor(b, hit, args), table)))
  }

  /** Asking for dormant memories changes no search. */
  lemma IncludeDormantHasNoEffect(b: Binding, table: seq<Row>, s: Scoring, hit: Row -> bool, args: SearchArgs)
    ensures Search(b, table, s, hit, args) == Search(b, table, s, hit, args.(includeDormant := !args.includeDormant))
    ensures forall m :: m in Search(b, table, s, hit, args) ==> m.state == Active
  {
    hide Filter, Sort, Ranked, VisibleMemory;
    var other := args.(includeDormant := !args.includeDormant);
    SamePredicate(CandidateFor(b, hit, args), CandidateFor(b, hit, other), table);
    RankedMembers(s, Filter(CandidateFor(b, hit, args), table));
    FilterMembers(CandidateFor(b, hit, args), table);
    FilterMembers(Visible(b), StoreSearch(b, table, s, hit, args));
    forall m | m in Search(b, table, s, hit, args) ensures m.state == Active {
      assert m in StoreSearch(b, table, s, hit, args);
      assert m in Filter(CandidateFor(b, hit, args), table);
    }
  }

  lemma RankedMembers(s: Scoring, rows: seq<Row>)
    ensures forall m :: m in Ranked(s, rows) <==> m in rows
  {
    hide Sort;
    SameMembers(Ranked(s, rows), rows);
  }

  /** A search of owned rows is exact. */
  lemma OwnedSearchIsExact(b: Binding, table: seq<Row>, s: Scoring, hit: Row -> bool, args: SearchArgs)
    requires !b.includeUnowned
    ensures Search(b, table, s, hit, args) == SearchVisible(b, table, s, hit, args)
  {
    hide Filter, Ranked;
    SamePredicate(CandidateFor(b, hit, args), VisibleCandidateFor(b, hit, args), table);
    var ranked := Ranked(s, Filter(CandidateFor(b, hit, args), table));
    RankedMembers(s, Filter(CandidateFor(b, hit, args), table));
    FilterMembers(CandidateFor(b, hit, args), table);
    FilterAll(Visible(b), Take(args.limit, ranked));
  }

  /** Filtering the ranking is ranking the filtered, by the best similarity of all candidates. */
  lemma WidenedSearchForm(b: Binding, table: seq<Row>, s: Scoring, hit: Row -> bool, args: SearchArgs)
    requires Distinct(table) && KeyedById(table)
    ensures var all := Filter(CandidateFor(b, hit, args), table);
      Filter(Visible(b), Ranked(s, all)) == Sort(ByRank(s, Best(s, all)), Filter(VisibleCandidateFor(b, hit, args), table))
  {
    hide Filter, Sort, Distinct, Best, VisibleMemory, Candidate, StrictTotalOn;
    var all := Filter(CandidateFor(b, hit, args), table);
    var less := ByRank(s, Best(s, all));
    FilterMembers(CandidateFor(b, hit, args), table);
    ByRankIsTotal(s, Best(s, all), all);
    FilterSort(less, Visible(b), all);
    FilterCompose(CandidateFor(b, hit, args), Visible(b), VisibleCandidateFor(b, hit, args), table);
  }

  /** At every limit a search is the first of the visible candidates, ranked by the best similarity of all candidates. */
  lemma SearchForm(b: Binding, table: seq<Row>, s: Scoring, hit: Row -> bool, args: SearchArgs)
    requires Distinct(table) && KeyedById(table)
    ensures var all, visible := Filter(CandidateFor(b, hit, args), table), Filter(VisibleCandidateFor(b, hit, args), table);
      Search(b, table, s, hit, args) == Take(args.limit, Sort(ByRank(s, Best(s, all)), visible))
  {
    hide Filter, Sort, Best;
    if b.includeUnowned {
      WidenedSearchForm(b, table, s, hit, args);
    } else {
      OwnedSearchIsExact(b, table, s, hit, args);
      SamePredicate(CandidateFor(b, hit, args), VisibleCandidateFor(b, hit, args), table);
    }
  }
}
