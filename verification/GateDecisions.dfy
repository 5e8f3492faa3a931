/**
 * When the salience gate takes each of its decisions, in terms of the candidate, the configured thresholds and the store
 * (plugins/memory/src/gate.rs, evaluate_internal).
 */
module GateDecisions {
  import opened Wrappers
  import opened Ordering
  import opened Scopes
  import opened Text
  import opened Gate
  import Tokens
  import TechnologyFacts
  import NumericFacts

  /** A threshold brought into [0, 1]. */
  function InUnit(x: real): real {
    if x <= 0.0 then 0.0 else if x >= 1.0 then 1.0 else x
  }

  /** From here on a match is near enough to merge with. */
  function Near(c: Config): real {
    InUnit(c.mergeSimilarity)
  }

  /** From here on a memory is a match. */
  function Floor(c: Config): real {
    if InUnit(c.noveltyDoubt) < Near(c) then InUnit(c.noveltyDoubt) else Near(c)
  }

  ghost predicate Good(g: Setting, candidate: Candidate) {
    Trim(g.text, candidate.content) != "" && 0.0 <= candidate.importance <= 1.0 && !candidate.emptyEmbedding
  }

  ghost predicate Insignificant(c: Config, candidate: Candidate) {
    candidate.importance < c.salience || (candidate.agentInferred && candidate.importance < c.agentInferredImportance)
  }

  /** The most similar memory, if any reaches the floor; of equally similar ones the latest, then the one of the highest id. */
  ghost predicate IsMatch(c: Config, similarity: Stored -> real, store: seq<Stored>, best: Stored) {
    && best in store && similarity(best) >= Floor(c)
    && forall m :: m in store && m != best ==>
         || similarity(m) < similarity(best)
         || (similarity(m) == similarity(best)
             && (m.updatedAt < best.updatedAt || (m.updatedAt == best.updatedAt && m.id < best.id)))
  }

  ghost predicate HasMatch(c: Config, similarity: Stored -> real, store: seq<Stored>) {
    exists m :: m in store && similarity(m) >= Floor(c)
  }

  /** The candidate is compared with the store, and there is this match. */
  ghost predicate Matches(g: Setting, o: Oracle, candidate: Candidate, store: seq<Stored>, best: Stored) {
    && Good(g, candidate) && o.similarity.Some? && o.storeAnswers && IsMatch(g.config, o.similarity.value, store, best)
  }

  lemma ThresholdsAgree(c: Config)
    ensures MergeThreshold(c) == Near(c) && NoveltyFloor(c) == Floor(c)
  {
  }

  lemma FindsMatch(c: Config, similarity: Stored -> real, store: seq<Stored>)
    requires Distinct(store) && Gate.KeyedById(store)
    ensures var best := BestMatch(c, similarity, store, None);
      && (best.Some? <==> HasMatch(c, similarity, store))
      && (forall m :: IsMatch(c, similarity, store, m) <==> best == Some(m))
  {
    hide Sort, Filter, NoveltyFloor, Floor, Distinct, StrictTotalOn, Gate.KeyedById;
    ThresholdsAgree(c);
    var p, less := AtLeast(similarity, NoveltyFloor(c)), BySimilarity(similarity);
    var similar := Filter(p, store);
    var sorted := Sort(less, similar);
    FilterMembers(p, store);
    SubsetIsKeyed(similar, store);
    SimilarityOrderIsTotal(similarity, similar);
    SortSorts(less, similar);
    SameMembers(sorted, similar);
    if sorted == [] {
      forall m | m in store ensures similarity(m) < Floor(c) {
        assert m !in similar;
      }
    } else {
      FirstIsMatch(c, similarity, store, sorted);
    }
  }

  lemma FirstIsMatch(c: Config, similarity: Stored -> real, store: seq<Stored>, sorted: seq<Stored>)
    requires Gate.KeyedById(store) && sorted != [] && Sorted(BySimilarity(similarity), sorted)
    requires forall m :: m in sorted <==> m in store && similarity(m) >= Floor(c)
    ensures HasMatch(c, similarity, store)
    ensures forall m :: IsMatch(c, similarity, store, m) <==> m == sorted[0]
  {
    hide Floor;
    var best := sorted[0];
    assert best in sorted;
    forall m | m in store && m != best
      ensures similarity(m) < similarity(best) || (similarity(m) == similarity(best)
                && (m.updatedAt < best.updatedAt || (m.updatedAt == best.updatedAt && m.id < best.id)))
    {
      if m in sorted {
        var k :| 0 <= k < |sorted| && sorted[k] == m;
        assert BySimilarity(similarity)(sorted[0], sorted[k]);
        assert m.id != best.id;
      }
    }
  }

  /** A candidate that is not good, or a store that does not answer, gives an error and no decision. */
  lemma FailsExactly(g: Setting, o: Oracle, candidate: Candidate, store: seq<Stored>, excluded: Option<nat>)
    ensures var r := Outcome(g, o, candidate, store, excluded);
      && (r == Err(InvalidCandidate) <==> !Good(g, candidate))
      && (r == Err(StoreFailure) <==> Good(g, candidate) && o.similarity.Some? && !o.storeAnswers)
      && (r.Err? ==> r == Err(InvalidCandidate) || r == Err(StoreFailure))
  {
    hide BestMatch, Confront, Weigh;
  }

  /** Whether the gate comes to a decision at all. */
  ghost predicate Decides(g: Setting, o: Oracle, candidate: Candidate) {
    Good(g, candidate) && (o.similarity.Some? ==> o.storeAnswers)
  }

  /** The decision is about the one match, or about the candidate alone. */
  lemma Cases(g: Setting, o: Oracle, candidate: Candidate, store: seq<Stored>) returns (best: Option<Stored>)
    requires Distinct(store) && Gate.KeyedById(store)
    ensures forall m :: Matches(g, o, candidate, store, m) <==> best == Some(m)
    ensures Decides(g, o, candidate) && o.similarity.Some? ==> (best.Some? <==> HasMatch(g.config, o.similarity.value, store))
    ensures best.Some? ==> o.similarity.Some? && Decides(g, o, candidate)
    ensures !Decides(g, o, candidate) ==> Outcome(g, o, candidate, store, None).Err?
    ensures Decides(g, o, candidate) && best.None? ==> Outcome(g, o, candidate, store, None) == Ok(Weigh(g.config, candidate, None))
    ensures best.Some? ==>
      Outcome(g, o, candidate, store, None)
        == Ok(Confront(g.cc, g.config, o, g.scope, candidate, best.value, o.similarity.value(best.value)))
  {
    hide BestMatch, IsMatch, HasMatch, Distinct, Gate.KeyedById, Confront, Weigh;
    best := None;
    if o.similarity.Some? {
      FindsMatch(g.config, o.similarity.value, store);
      if Decides(g, o, candidate) {
        best := BestMatch(g.config, o.similarity.value, store, None);
      }
    }
  }

  /** A match in a broader scope: the candidate is rejected, and only then. */
  lemma RejectsExactly(g: Setting, o: Oracle, candidate: Candidate, store: seq<Stored>, id: nat, scope: MemoryScope)
    requires Distinct(store) && Gate.KeyedById(store)
    ensures Outcome(g, o, candidate, store, None) == Ok(Reject(id, scope)) <==>
      exists best :: Matches(g, o, candidate, store, best) && best.id == id && best.scope == scope && scope.Rank() > g.scope.Rank()
  {
    hide Outcome, Matches, Decides, Distinct, Gate.KeyedById, HeuristicGround, MergeThreshold, NoveltyFloor, HasMatch;
    var best := Cases(g, o, candidate, store);
  }

  /**
   * Archived are the insignificant candidates, and only those, that are not compared or whose match, if there is one, is in
   * no broader scope and not near enough to merge with.
   */
  lemma ArchivesExactly(g: Setting, o: Oracle, candidate: Candidate, store: seq<Stored>)
    requires Distinct(store) && Gate.KeyedById(store)
    ensures Outcome(g, o, candidate, store, None) == Ok(Archive) <==>
      && Good(g, candidate) && Insignificant(g.config, candidate)
      && (o.similarity.Some? ==> o.storeAnswers)
      && forall best :: Matches(g, o, candidate, store, best) ==>
           best.scope.Rank() <= g.scope.Rank() && o.similarity.value(best) < Near(g.config)
  {
    hide Outcome, Matches, Distinct, Gate.KeyedById, HeuristicGround, Near, Floor, MergeThreshold, NoveltyFloor, Good, HasMatch;
    ThresholdsAgree(g.config);
    var best := Cases(g, o, candidate, store);
  }

  /** A significant candidate that matches nothing, or nothing is known of, is accepted; and one the model calls unrelated. */
  lemma AcceptsUnnamedExactly(g: Setting, o: Oracle, candidate: Candidate, store: seq<Stored>)
    requires Distinct(store) && Gate.KeyedById(store)
    ensures Outcome(g, o, candidate, store, None) == Ok(Accept(None, None)) <==>
      && Good(g, candidate) && (o.similarity.Some? ==> o.storeAnswers)
      && if o.similarity.None? || !HasMatch(g.config, o.similarity.value, store) then !Insignificant(g.config, candidate)
         else exists best :: Matches(g, o, candidate, store, best) && best.scope.Rank() <= g.scope.Rank()
                && o.similarity.value(best) >= Near(g.config) && o.verdict(best.content, candidate.content) == Some(Unrelated)
  {
    hide Outcome, Matches, Distinct, Gate.KeyedById, HeuristicGround, Near, Floor, MergeThreshold, NoveltyFloor, Good, HasMatch;
    ThresholdsAgree(g.config);
    var best := Cases(g, o, candidate, store);
    if best.Some? {
      MatchReachesFloor(g, o, candidate, store, best.value);
    }
  }

  /** A significant candidate is accepted with its match named when the match is in no broader scope and less than near. */
  lemma AcceptsNamedExactly(g: Setting, o: Oracle, candidate: Candidate, store: seq<Stored>, id: nat, similarity: real)
    requires Distinct(store) && Gate.KeyedById(store)
    ensures Outcome(g, o, candidate, store, None) == Ok(Accept(Some(id), Some(similarity))) <==>
      && !Insignificant(g.config, candidate)
      && exists best :: Matches(g, o, candidate, store, best) && best.id == id && o.similarity.value(best) == similarity
           && best.scope.Rank() <= g.scope.Rank() && similarity < Near(g.config)
  {
    hide Outcome, Matches, Distinct, Gate.KeyedById, HeuristicGround, Near, Floor, MergeThreshold, NoveltyFloor, Decides, HasMatch;
    ThresholdsAgree(g.config);
    var best := Cases(g, o, candidate, store);
    if best.Some? {
      MatchReachesFloor(g, o, candidate, store, best.value);
    }
  }

  lemma MatchReachesFloor(g: Setting, o: Oracle, candidate: Candidate, store: seq<Stored>, best: Stored)
    ensures Matches(g, o, candidate, store, best) ==> o.similarity.Some? && o.similarity.value(best) >= Floor(g.config)
  {
  }

  /** The scope that a merge promotes the match to: the candidate's, when that is the broader one. */
  function Promotion(g: Setting, best: Stored): Option<MemoryScope> {
    if best.scope.Rank() < g.scope.Rank() then Some(g.scope) else None
  }

  /** What is decided about a match near enough to merge with: the model's verdict, or without one the two texts. */
  lemma NearMatchDecides(g: Setting, o: Oracle, candidate: Candidate, store: seq<Stored>, best: Stored)
    requires Distinct(store) && Gate.KeyedById(store) && Matches(g, o, candidate, store, best)
    requires best.scope.Rank() <= g.scope.Rank() && o.similarity.value(best) >= Near(g.config)
    ensures var r, a, b := Outcome(g, o, candidate, store, None), Tokens.TokensOf(g.cc, best.content), Tokens.TokensOf(g.cc, candidate.content);
      var text := o.merged(best.content, candidate.content, o.similarity.value(best));
      var merge := Merge(best.id, text, Promotion(g, best));
      match o.verdict(best.content, candidate.content)
      case Some(Agree) => r == Ok(merge)
      case Some(Contradict(description)) => r == Ok(Contradiction(best.id, ModelSays(description)))
      case Some(Unrelated) => r == Ok(Accept(None, None))
      case None =>
        if exists s, c :: TechnologyFacts.OpposedOn(a, b, s, c) then r == Ok(Contradiction(best.id, TechnologyClash))
        else if exists s, v, w :: NumericFacts.ClashOn(a, b, s, v, w) then r == Ok(Contradiction(best.id, NumericClash))
        else r == Ok(merge)
  {
    hide Outcome, Matches, Distinct, Gate.KeyedById, Near, Floor, MergeThreshold, NoveltyFloor, Decides, HasMatch,
      TechnologyFacts.OpposedOn, NumericFacts.ClashOn, Weigh;
    ThresholdsAgree(g.config);
    var found := Cases(g, o, candidate, store);
  }
}
