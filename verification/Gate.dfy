/** The salience gate's decision on a candidate memory (plugins/memory/src/gate.rs). */
module Gate {
  import opened Wrappers
  import opened Ordering
  import opened Scopes
  import opened Text
  import Similarity
  import Tokens
  import TechnologyFacts
  import NumericFacts

  datatype Stored = Stored(id: nat, content: string, scope: MemoryScope, updatedAt: int)

  datatype Candidate = Candidate(content: string, importance: real, agentInferred: bool, emptyEmbedding: bool)

  datatype Config = Config(noveltyDoubt: real, mergeSimilarity: real, salience: real, agentInferredImportance: real)

  datatype Verdict = Agree | Contradict(description: string) | Unrelated

  /** Why two memories are said to contradict each other. */
  datatype Ground = ModelSays(description: string) | TechnologyClash | NumericClash

  datatype Decision =
    | Accept(similarTo: Option<nat>, similarity: Option<real>)
    | Merge(target: nat, content: string, promoteTo: Option<MemoryScope>)
    | Contradiction(conflicting: nat, ground: Ground)
    | Archive
    | Reject(existing: nat, scope: MemoryScope)

  datatype GateError = InvalidCandidate | StoreFailure

  /**
   * The foreign calls: the candidate's similarity to a stored memory (none without an embedding), whether the store
   * answers, the language model's verdict, and the merged text.
   */
  datatype Oracle = Oracle(
    similarity: Option<Stored -> real>,
    storeAnswers: bool,
    verdict: (string, string) -> Option<Verdict>,
    merged: (string, string, real) -> string)

  function MergeThreshold(c: Config): real {
    Similarity.Clamp(c.mergeSimilarity, 0.0, 1.0)
  }

  function NoveltyFloor(c: Config): real {
    var doubt := Similarity.Clamp(c.noveltyDoubt, 0.0, 1.0);
    if doubt <= MergeThreshold(c) then doubt else MergeThreshold(c)
  }

  predicate ShouldMerge(c: Config, similarity: real) {
    similarity >= MergeThreshold(c)
  }

  predicate LikelyDuplicate(c: Config, similarity: real) {
    NoveltyFloor(c) <= similarity < MergeThreshold(c)
  }

  predicate ValidCandidate(text: Rules, candidate: Candidate) {
    && Trim(text, candidate.content) != ""
    && 0.0 <= candidate.importance <= 1.0
    && !candidate.emptyEmbedding
  }

  // ----- the assumed contract of find_similar

  /** Similarity, update time, id, each descending. */
  predicate MoreSimilar(similarity: Stored -> real, a: Stored, b: Stored) {
    similarity(a) > similarity(b)
    || (similarity(a) == similarity(b) && (a.updatedAt > b.updatedAt || (a.updatedAt == b.updatedAt && a.id > b.id)))
  }

  function BySimilarity(similarity: Stored -> real): (Stored, Stored) -> bool {
    (a, b) => MoreSimilar(similarity, a, b)
  }

  function AtLeast(similarity: Stored -> real, threshold: real): Stored -> bool {
    m => similarity(m) >= threshold
  }

  /** The most similar memories at or above a threshold, most similar first. */
  function FindSimilar(similarity: Stored -> real, store: seq<Stored>, threshold: real, limit: nat): seq<Stored> {
    Take(limit, Sort(BySimilarity(similarity), Filter(AtLeast(similarity, threshold), store)))
  }

  function Others(excluded: Option<nat>): Stored -> bool {
    (m: Stored) => excluded != Some(m.id)
  }

  function First<T>(p: T -> bool, xs: seq<T>): Option<T> {
    if xs == [] then None else if p(xs[0]) then Some(xs[0]) else First(p, xs[1..])
  }

  /** The match that the decision looks at. */
  function BestMatch(c: Config, similarity: Stored -> real, store: seq<Stored>, excluded: Option<nat>): Option<Stored> {
    First(Others(excluded), FindSimilar(similarity, store, NoveltyFloor(c), if excluded.Some? then 2 else 1))
  }

  // ----- the decision

  function PromoteTo(best: Stored, scope: MemoryScope): Option<MemoryScope> {
    if best.scope.Rank() < scope.Rank() then Some(scope) else None
  }

  /** The decision without a match to merge with. */
  function Weigh(c: Config, candidate: Candidate, duplicate: Option<(nat, real)>): Decision {
    if candidate.importance < c.salience then Archive
    else if candidate.agentInferred && candidate.importance < c.agentInferredImportance then Archive
    else if duplicate.Some? then Accept(Some(duplicate.value.0), Some(duplicate.value.1))
    else Accept(None, None)
  }

  /** What the heuristics find in two texts: technologies first, then numbers. */
  ghost function HeuristicGround(cc: Tokens.CharClasses, existing: string, candidate: string): Option<Ground> {
    var a, b := Tokens.TokensOf(cc, existing), Tokens.TokensOf(cc, candidate);
    if TechnologyFacts.Contradicts(a, b) then Some(TechnologyClash)
    else if NumericFacts.Contradicts(a, b) then Some(NumericClash)
    else None
  }

  method ContradictionDescription(cc: Tokens.CharClasses, existing: string, candidate: string) returns (r: Option<Ground>)
    ensures r == HeuristicGround(cc, existing, candidate)
  {
    var technology := TechnologyFacts.DetectTechnologyContradiction(cc, existing, candidate);
    if technology.Some? {
      return Some(TechnologyClash);
    }
    var numeric := NumericFacts.DetectNumericContradiction(cc, existing, candidate);
    r := if numeric.Some? then Some(NumericClash) else None;
  }

  ghost function Confront(
      cc: Tokens.CharClasses, c: Config, o: Oracle, scope: MemoryScope, candidate: Candidate, best: Stored, similarity: real)
    : Decision
  {
    if best.scope.Rank() > scope.Rank() then Reject(best.id, best.scope)
    else if ShouldMerge(c, similarity) then
      var merge := Merge(best.id, o.merged(best.content, candidate.content, similarity), PromoteTo(best, scope));
      match o.verdict(best.content, candidate.content)
      case Some(Agree) => merge
      case Some(Contradict(description)) => Contradiction(best.id, ModelSays(description))
      case Some(Unrelated) => Accept(None, None)
      case None =>
        var ground := HeuristicGround(cc, best.content, candidate.content);
        if ground.Some? then Contradiction(best.id, ground.value) else merge
    else Weigh(c, candidate, if LikelyDuplicate(c, similarity) then Some((best.id, similarity)) else None)
  }

  /** Where the decision is taken. */
  datatype Setting = Setting(text: Rules, cc: Tokens.CharClasses, config: Config, scope: MemoryScope)

  /** What the gate decides. */
  ghost function Outcome(g: Setting, o: Oracle, candidate: Candidate, store: seq<Stored>, excluded: Option<nat>)
    : Result<Decision, GateError>
  {
    if !ValidCandidate(g.text, candidate) then Err(InvalidCandidate)
    else if o.similarity.None? then Ok(Weigh(g.config, candidate, None))
    else if !o.storeAnswers then Err(StoreFailure)
    else
      var best := BestMatch(g.config, o.similarity.value, store, excluded);
      if best.None? then Ok(Weigh(g.config, candidate, None))
      else Ok(Confront(g.cc, g.config, o, g.scope, candidate, best.value, o.similarity.value(best.value)))
  }

  /** evaluate_internal, with its one local variable. */
  method Evaluate(g: Setting, o: Oracle, candidate: Candidate, store: seq<Stored>, excluded: Option<nat>)
    returns (r: Result<Decision, GateError>)
    ensures r == Outcome(g, o, candidate, store, excluded)
  {
    hide HeuristicGround, ValidCandidate, FindSimilar, First;
    if !ValidCandidate(g.text, candidate) {
      return Err(InvalidCandidate);
    }
    var likelyDuplicate: Option<(nat, real)> := None;
    if o.similarity.Some? {
      if !o.storeAnswers {
        return Err(StoreFailure);
      }
      var similarity := o.similarity.value;
      var matches := FindSimilar(similarity, store, NoveltyFloor(g.config), if excluded.Some? then 2 else 1);
      var found := First(Others(excluded), matches);
      if found.Some? {
        var best := found.value;
        if best.scope.Rank() > g.scope.Rank() {
          return Ok(Reject(best.id, best.scope));
        }
        if ShouldMerge(g.config, similarity(best)) {
          var merge := Merge(best.id, o.merged(best.content, candidate.content, similarity(best)), PromoteTo(best, g.scope));
          var verdict := o.verdict(best.content, candidate.content);
          if verdict.Some? {
            match verdict.value
            case Agree => return Ok(merge);
            case Contradict(description) => return Ok(Contradiction(best.id, ModelSays(description)));
            case Unrelated => return Ok(Accept(None, None));
          }
          var ground := ContradictionDescription(g.cc, best.content, candidate.content);
          if ground.Some? {
            return Ok(Contradiction(best.id, ground.value));
          }
          return Ok(merge);
        }
        if LikelyDuplicate(g.config, similarity(best)) {
          likelyDuplicate := Some((best.id, similarity(best)));
        }
      }
    }
    r := Ok(Weigh(g.config, candidate, likelyDuplicate));
  }

  // ----- excluding a memory is evaluating without it

  ghost predicate KeyedById(store: seq<Stored>) {
    forall a, b :: a in store && b in store && a.id == b.id ==> a == b
  }

  lemma SimilarityOrderIsTotal(similarity: Stored -> real, store: seq<Stored>)
    requires KeyedById(store)
    ensures StrictTotalOn(BySimilarity(similarity), store)
  {
  }

  /** Among distinct memories two are enough to see past the excluded one. */
  lemma FirstOfTwo(sorted: seq<Stored>, excluded: nat)
    requires Distinct(sorted) && KeyedById(sorted)
    ensures First(Others(Some(excluded)), Take(2, sorted)) == First(Others(None), Take(1, Filter(Others(Some(excluded)), sorted)))
  {
    var p := Others(Some(excluded));
    if sorted != [] && !p(sorted[0]) && |sorted| > 1 {
      assert sorted[1] in sorted && sorted[0] in sorted && sorted[0] != sorted[1];
      assert p(sorted[1]);
      assert Take(2, sorted)[1..] == [sorted[1]];
      assert sorted[1..][0] == sorted[1];
    } else if sorted != [] && !p(sorted[0]) {
      assert sorted[1..] == [] && Take(2, sorted)[1..] == [];
    }
  }

  lemma {:induction false} FilterCommutes<T(!new)>(p: T -> bool, q: T -> bool, xs: seq<T>)
    ensures Filter(p, Filter(q, xs)) == Filter(q, Filter(p, xs))
  {
    if xs != [] {
      FilterCommutes(p, q, xs[1..]);
      assert q(xs[0]) ==> ([xs[0]] + Filter(q, xs[1..]))[1..] == Filter(q, xs[1..]);
      assert p(xs[0]) ==> ([xs[0]] + Filter(p, xs[1..]))[1..] == Filter(p, xs[1..]);
    }
  }

  lemma BestMatchWithout(c: Config, similarity: Stored -> real, store: seq<Stored>, excluded: nat)
    requires Distinct(store) && KeyedById(store)
    ensures BestMatch(c, similarity, store, Some(excluded))
      == BestMatch(c, similarity, Filter(Others(Some(excluded)), store), None)
  {
    hide Sort, Filter, First, NoveltyFloor, Distinct, StrictTotalOn;
    var keep, p := Others(Some(excluded)), AtLeast(similarity, NoveltyFloor(c));
    var similar := Filter(p, store);
    var less := BySimilarity(similarity);
    FilterMembers(p, store);
    SimilarityOrderIsTotal(similarity, similar);
    FilterCommutes(p, keep, store);
    FilterSort(less, keep, similar);
    SortSorts(less, similar);
    SameMembers(Sort(less, similar), similar);
    SortedIsDistinct(less, Sort(less, similar), similar);
    FirstOfTwo(Sort(less, similar), excluded);
  }

  /** Evaluating with an excluded memory decides as evaluating against the store without it. */
  lemma ExcludingIsWithout(g: Setting, o: Oracle, candidate: Candidate, store: seq<Stored>, excluded: nat)
    requires Distinct(store) && KeyedById(store)
    ensures Outcome(g, o, candidate, store, Some(excluded))
      == Outcome(g, o, candidate, Filter(Others(Some(excluded)), store), None)
  {
    hide BestMatch, Confront, Weigh, ValidCandidate, Filter, Distinct, KeyedById;
    if o.similarity.Some? {
      BestMatchWithout(g.config, o.similarity.value, store, excluded);
    }
  }

  /** Asking for one match would not be enough: the excluded memory may be it, and hide the next. */
  lemma OneMatchIsNotEnough(similarity: Stored -> real, a: Stored, b: Stored)
    requires a.id != b.id && similarity(a) > similarity(b) >= 0.5
    ensures First(Others(Some(a.id)), FindSimilar(similarity, [a, b], 0.5, 1)) == None
    ensures First(Others(Some(a.id)), FindSimilar(similarity, [a, b], 0.5, 2)) == Some(b)
  {
    hide Sort;
    var p := AtLeast(similarity, 0.5);
    assert [a, b][1..] == [b] && [b][1..] == [];
    assert Filter(p, [b]) == [b];
    assert Filter(p, [a, b]) == [a, b];
    SortTwo(BySimilarity(similarity), a, b);
    assert [a][1..] == [];
    assert Take(1, [a, b]) == [a] && Take(2, [a, b]) == [a, b];
  }

  // ----- what a decision says

  /** The match looked at is the most similar of the others, and is at least as similar as the floor. */
  lemma BestMatchIsBest(c: Config, similarity: Stored -> real, store: seq<Stored>)
    requires Distinct(store) && KeyedById(store)
    ensures var best := BestMatch(c, similarity, store, None);
      && (best.None? <==> forall m :: m in store ==> similarity(m) < NoveltyFloor(c))
      && (best.Some? ==> best.value in store && similarity(best.value) >= NoveltyFloor(c)
                         && forall m :: m in store ==> similarity(m) <= similarity(best.value))
  {
    hide Sort, Filter, NoveltyFloor, Distinct, StrictTotalOn, KeyedById;
    var p, less := AtLeast(similarity, NoveltyFloor(c)), BySimilarity(similarity);
    var similar := Filter(p, store);
    var sorted := Sort(less, similar);
    FilterMembers(p, store);
    SubsetIsKeyed(similar, store);
    SimilarityOrderIsTotal(similarity, similar);
    SortSorts(less, similar);
    SameMembers(sorted, similar);
    if sorted == [] {
      forall m | m in store ensures similarity(m) < NoveltyFloor(c) {
        assert m !in similar;
      }
    } else {
      assert sorted[0] in similar;
      forall m | m in store ensures similarity(m) <= similarity(sorted[0]) {
        if m in similar {
          assert m in sorted;
          var k :| 0 <= k < |sorted| && sorted[k] == m;
          assert k > 0 ==> less(sorted[0], sorted[k]);
        }
      }
    }
  }

  lemma SubsetIsKeyed(part: seq<Stored>, store: seq<Stored>)
    requires KeyedById(store) && forall m :: m in part ==> m in store
    ensures KeyedById(part)
  {
  }

  ghost predicate Salient(c: Config, candidate: Candidate) {
    candidate.importance >= c.salience && (candidate.agentInferred ==> candidate.importance >= c.agentInferredImportance)
  }

  /**
   * A salient candidate whose best match is neither broader nor near enough to merge is accepted with that match named:
   * between the floor and the merge threshold every match is a likely duplicate.
   */
  lemma AcceptNamesTheMatch(g: Setting, o: Oracle, candidate: Candidate, store: seq<Stored>)
    requires Distinct(store) && KeyedById(store)
    requires ValidCandidate(g.text, candidate) && o.similarity.Some? && o.storeAnswers && Salient(g.config, candidate)
    ensures var best := BestMatch(g.config, o.similarity.value, store, None);
      best.Some? && best.value.scope.Rank() <= g.scope.Rank() && !ShouldMerge(g.config, o.similarity.value(best.value)) ==>
        Outcome(g, o, candidate, store, None) == Ok(Accept(Some(best.value.id), Some(o.similarity.value(best.value))))
  {
    hide BestMatch, ValidCandidate, Distinct, KeyedById, HeuristicGround;
    BestMatchIsBest(g.config, o.similarity.value, store);
  }

  /**
   * The gate writes nothing over a memory it does not resemble: it merges only into, and reports a contradiction only
   * with, the most similar memory, which is at least as similar as the merge threshold and in no broader scope.
   */
  lemma MergesOnlyWithBest(g: Setting, o: Oracle, candidate: Candidate, store: seq<Stored>)
    requires Distinct(store) && KeyedById(store)
    ensures var r := Outcome(g, o, candidate, store, None);
      r.Ok? && (r.value.Merge? || r.value.Contradiction?) ==>
        exists best :: best in store && o.similarity.Some?
          && (if r.value.Merge? then r.value.target else r.value.conflicting) == best.id
          && best.scope.Rank() <= g.scope.Rank() && ShouldMerge(g.config, o.similarity.value(best))
          && (r.value.Merge? && r.value.promoteTo.Some? ==> r.value.promoteTo.value == best.scope.Max(g.scope))
          && forall m :: m in store ==> o.similarity.value(m) <= o.similarity.value(best)
  {
    hide BestMatch, ValidCandidate, Distinct, KeyedById, ShouldMerge, HeuristicGround;
    if o.similarity.Some? {
      BestMatchIsBest(g.config, o.similarity.value, store);
    }
  }

  /** A match near enough to merge with, in no broader scope, on which the language model gives no verdict. */
  ghost predicate LeftToHeuristics(g: Setting, o: Oracle, candidate: Candidate, store: seq<Stored>, best: Stored) {
    && ValidCandidate(g.text, candidate) && o.similarity.Some? && o.storeAnswers
    && BestMatch(g.config, o.similarity.value, store, None) == Some(best)
    && best.scope.Rank() <= g.scope.Rank() && ShouldMerge(g.config, o.similarity.value(best))
    && o.verdict(best.content, candidate.content) == None
  }

  /**
   * Without a verdict the two texts decide: the gate reports a contradiction if and only if they state disjoint
   * technologies for one subject and category, or different values for one subject, and merges otherwise.
   */
  lemma TextsDecide(g: Setting, o: Oracle, candidate: Candidate, store: seq<Stored>, best: Stored)
    requires LeftToHeuristics(g, o, candidate, store, best)
    ensures var r := Outcome(g, o, candidate, store, None);
      var a, b := Tokens.TokensOf(g.cc, best.content), Tokens.TokensOf(g.cc, candidate.content);
      && r.Ok? && (r.value.Contradiction? || r.value.Merge?)
      && (r.value.Contradiction? <==>
            (exists s, c :: TechnologyFacts.OpposedOn(a, b, s, c)) || (exists s, v, w :: NumericFacts.ClashOn(a, b, s, v, w)))
  {
    hide BestMatch, ValidCandidate, ShouldMerge, TechnologyFacts.OpposedOn, NumericFacts.ClashOn;
  }

  /**
   * A candidate that repeats its best match word for word is merged, except exactly when the text states two values
   * for one subject: then the gate reports that it contradicts itself.
   */
  lemma RepeatedTextIsMerged(g: Setting, o: Oracle, candidate: Candidate, store: seq<Stored>, best: Stored)
    requires LeftToHeuristics(g, o, candidate, store, best) && candidate.content == best.content
    ensures var r := Outcome(g, o, candidate, store, None);
      var tokens := Tokens.TokensOf(g.cc, candidate.content);
      && r.Ok?
      && (r.value.Merge? <==> !exists i, j, s, v, w ::
            NumericFacts.StatedAt(tokens, i, s, v) && NumericFacts.StatedAt(tokens, j, s, w) && v != w)
      && (!r.value.Merge? ==> r.value == Contradiction(best.id, NumericClash))
  {
    hide BestMatch, ValidCandidate, ShouldMerge, TechnologyFacts.Contradicts, NumericFacts.Contradicts, NumericFacts.StatedAt;
    var tokens := Tokens.TokensOf(g.cc, candidate.content);
    TechnologyFacts.ContradictionIsSymmetric(tokens, tokens);
    NumericFacts.ContradictsItselfExactly(tokens);
  }
}
