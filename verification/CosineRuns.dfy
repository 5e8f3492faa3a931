/**
 * What the clustering says about the vectors themselves: the source's comparison is `similarity < threshold` on the
 * computed cosine (plugins/memory/src/consolidator.rs, consolidate_with_simple_strategy and normalize_threshold;
 * plugins/memory/src/similarity.rs).
 */
module CosineRuns {
  import opened Wrappers
  import opened Scopes
  import opened Candidates
  import opened SimpleStrategy
  import opened Clusters
  import opened ClusterFacts
  import opened Confluence
  import opened ConfluenceTheorem
  import opened SettledFront
  import opened Relisting
  import opened ApplicableRuns
  import Similarity

  /** The threshold in force: 0.85 for one that is not finite, otherwise the one given, brought into [0, 1]. */
  function Level(threshold: Option<real>): real {
    if threshold == None then 0.85
    else if threshold.value < 0.0 then 0.0
    else if threshold.value > 1.0 then 1.0
    else threshold.value
  }

  /** The rule compares the computed cosine with the threshold, and with 0.95 for near-identical texts. */
  lemma CosineRuleMeans(threshold: Option<real>, crossScope: bool, sqrt: real -> real, a: Similarity.Embedding, b: Similarity.Embedding)
    requires Similarity.IsSqrt(sqrt) && |a| == |b|
    ensures var rule := CosineRule(threshold, crossScope);
      && (rule.reaches(a, b) <==> Similarity.Cosine(a, b, sqrt) >= Level(threshold))
      && (rule.nearIdentical(a, b) <==> Similarity.Cosine(a, b, sqrt) >= 0.95)
      && rule.crossScope == crossScope
  {
    hide Similarity.Dot, Similarity.NormSquared, Similarity.Reaches, Similarity.IsQuotient, Similarity.ClampedQuotient, Similarity.IsSqrt,
      Similarity.RootProduct;
    var s := Similarity.Cosine(a, b, sqrt);
    CosineFacts(a, b, sqrt);
    Similarity.ReachesMeansAtLeast(a, b, NormalizeThreshold(threshold), s);
    Similarity.ReachesMeansAtLeast(a, b, 0.95, s);
  }

  lemma CosineFacts(a: Similarity.Embedding, b: Similarity.Embedding, sqrt: real -> real)
    requires Similarity.IsSqrt(sqrt) && |a| == |b|
    ensures var s := Similarity.Cosine(a, b, sqrt);
      && 0.0 <= s <= 1.0
      && (Similarity.Degenerate(a, b) || Similarity.Dot(a, b) < 0.0 ==> s == 0.0)
      && (!Similarity.Degenerate(a, b) && Similarity.Dot(a, b) >= 0.0 ==>
            Similarity.IsQuotient(s, Similarity.Dot(a, b), Similarity.NormSquared(a), Similarity.NormSquared(b)))
  {
    hide Similarity.Dot, Similarity.NormSquared, Similarity.IsQuotient, Similarity.ClampedQuotient, Similarity.IsSqrt, Similarity.RootProduct;
    if !Similarity.Degenerate(a, b) {
      Similarity.ClampedCosineBounds(a, b, sqrt);
    }
  }

  /** Comparing two candidates is asking for the cosine of their vectors, where their scopes allow it. */
  lemma CompareMeans(threshold: Option<real>, crossScope: bool, sqrt: real -> real, l: Candidate, o: Candidate)
    requires Similarity.IsSqrt(sqrt) && l.embedding.Some? && o.embedding.Some?
    ensures var r, a, b := Compare(CosineRule(threshold, crossScope), l, o), l.embedding.value, o.embedding.value;
      if !crossScope && l.memory.scope != o.memory.scope then r == Ok(false)
      else match Similarity.Answer(a, b, sqrt)
        case Err(e) => r == Err(e)
        case Ok(s) => r == Ok(s >= Level(threshold))
  {
    hide Similarity.Cosine, CosineRule, Level;
    if |l.embedding.value| == |o.embedding.value| {
      CosineRuleMeans(threshold, crossScope, sqrt, l.embedding.value, o.embedding.value);
    }
    CrossScopeOf(threshold, crossScope);
  }

  lemma CrossScopeOf(threshold: Option<real>, crossScope: bool)
    ensures CosineRule(threshold, crossScope).crossScope == crossScope
  {
  }

  // ----- runs, on the memories given

  /** Takes part: active, with a vector. */
  predicate Usable(c: Candidate) {
    c.memory.state == Active && c.embedding.Some? && c.embedding.value != []
  }

  predicate OneZone(crossScope: bool, l: Candidate, o: Candidate) {
    crossScope || l.memory.scope == o.memory.scope
  }

  /** The usable vectors that may be compared have one length. */
  ghost predicate OneLength(crossScope: bool, cs: seq<Candidate>) {
    forall a, b :: a in cs && b in cs && Usable(a) && Usable(b) && OneZone(crossScope, a, b) ==>
      |a.embedding.value| == |b.embedding.value|
  }

  /** Both take part, their scopes allow a merge, and their cosine reaches the threshold. */
  ghost predicate Similar(threshold: Option<real>, crossScope: bool, sqrt: real -> real, l: Candidate, o: Candidate) {
    && Usable(l) && Usable(o) && OneZone(crossScope, l, o) && |l.embedding.value| == |o.embedding.value|
    && Similarity.Cosine(l.embedding.value, o.embedding.value, sqrt) >= Level(threshold)
  }

  /** More important, or as important and given earlier. */
  predicate Earlier(cs: seq<Candidate>, i: nat, j: nat)
    requires i < |cs| && j < |cs|
  {
    var a, b := cs[i].memory.importance, cs[j].memory.importance;
    a > b || (a == b && i < j)
  }

  lemma UsableIsReady(c: Candidate)
    ensures Usable(c) <==> Ready(Prepare(c))
    ensures Usable(c) ==> Prepare(c) == c
  {
  }

  lemma LinksMeans(threshold: Option<real>, crossScope: bool, sqrt: real -> real, l: Candidate, o: Candidate)
    requires Similarity.IsSqrt(sqrt) && Usable(l) && Usable(o)
    requires OneZone(crossScope, l, o) ==> |l.embedding.value| == |o.embedding.value|
    ensures Links(CosineRule(threshold, crossScope), l, o) <==> Similar(threshold, crossScope, sqrt, l, o)
  {
    hide Similarity.Cosine, CosineRule, Level;
    CrossScopeOf(threshold, crossScope);
    if OneZone(crossScope, l, o) {
      CosineRuleMeans(threshold, crossScope, sqrt, l.embedding.value, o.embedding.value);
    }
  }

  /** The visiting order holds the usable candidates, as they are. */
  lemma VisitedAreUsable(cs: seq<Candidate>, x: Candidate)
    ensures x in Order(cs) <==> x in cs && Usable(x)
  {
    hide PriorityOrder;
    OrderMembers(PrepareAll(cs));
    if x in Order(cs) {
      var i := Visited(cs, x);
      UsableIsReady(cs[i]);
    }
    if x in cs && Usable(x) {
      var i :| 0 <= i < |cs| && cs[i] == x;
      UsableIsReady(x);
      assert PrepareAll(cs)[i] == x;
    }
  }

  lemma OneLengthIsComparable(threshold: Option<real>, crossScope: bool, cs: seq<Candidate>)
    requires OneLength(crossScope, cs)
    ensures Comparable(CosineRule(threshold, crossScope), Order(cs))
  {
    hide Order, CosineRule;
    CrossScopeOf(threshold, crossScope);
    forall a, b | a in Order(cs) && b in Order(cs) && SameZone(CosineRule(threshold, crossScope), a, b)
      ensures |Vector(a)| == |Vector(b)| > 0
    {
      VisitedAreUsable(cs, a);
      VisitedAreUsable(cs, b);
    }
  }

  /** Among distinct candidates the sources are those that are not leaders. */
  lemma SourceIffNotLeader(rule: Rule, xs: seq<Candidate>, x: Candidate)
    requires DistinctIds(xs) && x in xs
    ensures x.memory.id in SourceIds(Pairs(rule, xs)) <==> x !in Leaders(rule, xs)
  {
    hide Pairs, Leaders, Ids, SourceIds;
    LeadersAreNotSources(rule, xs);
    LeadersAndSourcesPartition(rule, xs);
    LeadersAreMembers(rule, xs);
    var leaders, sources := Ids(Leaders(rule, xs)), SourceIds(Pairs(rule, xs));
    IdsMember(xs, x.memory.id);
    assert x.memory.id in multiset(Ids(xs));
    assert x.memory.id in multiset(leaders) || x.memory.id in multiset(sources);
    if x.memory.id in leaders {
      IdsMember(Leaders(rule, xs), x.memory.id);
      var l :| l in Leaders(rule, xs) && l.memory.id == x.memory.id;
      SameIdSame(xs, l, x);
    }
  }

  /** The order of two visited candidates. */
  lemma PrecedesIsEarlier(cs: seq<Candidate>, i: nat, j: nat)
    requires DistinctIds(cs) && i < |cs| && j < |cs| && i != j && Usable(cs[i]) && Usable(cs[j])
    ensures Precedes(Order(cs), cs[i], cs[j]) <==> Earlier(cs, i, j)
  {
    hide Order, Ahead, Precedes;
    UsableIsReady(cs[i]);
    UsableIsReady(cs[j]);
    OrderAhead(cs, i, j);
    OrderFacts(cs);
    VisitedAreUsable(cs, cs[i]);
    VisitedAreUsable(cs, cs[j]);
    AheadIsPrecedes(Order(cs), cs[i], cs[j]);
  }

  lemma AheadIsPrecedes(xs: seq<Candidate>, a: Candidate, b: Candidate)
    requires DistinctIds(xs) && a in xs && b in xs
    ensures Ahead(xs, a.memory.id, b.memory.id) <==> Precedes(xs, a, b)
  {
    if Ahead(xs, a.memory.id, b.memory.id) {
      var i, j :| 0 <= i < j < |xs| && xs[i].memory.id == a.memory.id && xs[j].memory.id == b.memory.id;
      SameIdSame(xs, xs[i], a);
      SameIdSame(xs, xs[j], b);
    }
  }

  /** The ids that an unlimited run merges away. */
  function Consumed(threshold: Option<real>, crossScope: bool, cs: seq<Candidate>): seq<MemoryId> {
    var r := Simple(CosineRule(threshold, crossScope), None, cs);
    if r.Ok? then SourceIds(ActionPairs(r.value)) else []
  }

  lemma RunFacts(threshold: Option<real>, crossScope: bool, cs: seq<Candidate>)
    requires DistinctIds(cs) && OneLength(crossScope, cs)
    ensures var rule := CosineRule(threshold, crossScope);
      && Simple(rule, None, cs).Ok? && DistinctIds(Order(cs))
      && ActionPairs(Simple(rule, None, cs).value) == Pairs(rule, Order(cs))
      && Consumed(threshold, crossScope, cs) == SourceIds(Pairs(rule, Order(cs)))
  {
    hide Order, CosineRule, Simple, Pairs, SourceIds;
    var rule := CosineRule(threshold, crossScope);
    OneLengthIsComparable(threshold, crossScope, cs);
    BatchSettles(rule, None, cs);
    OrderFacts(cs);
    assert Cut(None, 0, Pairs(rule, Order(cs))) == Pairs(rule, Order(cs));
  }

  /**
   * A memory is merged away if and only if it takes part and an earlier one, itself not merged away, is similar to it.
   * Going from the most important memory down, this says of each what becomes of it.
   */
  lemma ConsumedExactly(threshold: Option<real>, crossScope: bool, sqrt: real -> real, cs: seq<Candidate>, j: nat)
    requires Similarity.IsSqrt(sqrt) && DistinctIds(cs) && OneLength(crossScope, cs) && j < |cs|
    ensures var gone := Consumed(threshold, crossScope, cs);
      cs[j].memory.id in gone <==>
        exists i :: 0 <= i < |cs| && cs[i].memory.id !in gone && Earlier(cs, i, j)
                    && Similar(threshold, crossScope, sqrt, cs[i], cs[j])
  {
    hide Order, CosineRule, Simple, Pairs, Leaders, SourceIds, Consumed, Earlier, Similar, Links, Precedes, OneLength;
    var rule, xs := CosineRule(threshold, crossScope), Order(cs);
    RunFacts(threshold, crossScope, cs);
    LeadersAreFirstFit(rule, xs);
    if cs[j].memory.id in Consumed(threshold, crossScope, cs) {
      SourceIsVisited(rule, cs, j);
      VisitedAreUsable(cs, cs[j]);
      SourceIffNotLeader(rule, xs, cs[j]);
      var l :| l in Leaders(rule, xs) && Precedes(xs, l, cs[j]) && Links(rule, l, cs[j]);
      VisitedAreUsable(cs, l);
      var i :| 0 <= i < |cs| && cs[i] == l;
      SourceIffNotLeader(rule, xs, l);
      NotBeforeItself(xs, l);
      PrecedesIsEarlier(cs, i, j);
      LinkedAt(threshold, crossScope, sqrt, cs, i, j);
    }
    if i :| 0 <= i < |cs| && cs[i].memory.id !in Consumed(threshold, crossScope, cs) && Earlier(cs, i, j)
            && Similar(threshold, crossScope, sqrt, cs[i], cs[j]) {
      SimilarIsUsable(threshold, crossScope, sqrt, cs[i], cs[j]);
      VisitedAreUsable(cs, cs[i]);
      VisitedAreUsable(cs, cs[j]);
      SourceIffNotLeader(rule, xs, cs[i]);
      SourceIffNotLeader(rule, xs, cs[j]);
      LinkedAt(threshold, crossScope, sqrt, cs, i, j);
      NotEarlierThanItself(cs, i, j);
      PrecedesIsEarlier(cs, i, j);
      PrecedesIsEarlier(cs, j, i);
      LeadersAreUnlinked(rule, xs, cs[i], cs[j]);
    }
  }

  lemma SourceIsVisited(rule: Rule, cs: seq<Candidate>, j: nat)
    requires DistinctIds(cs) && j < |cs| && cs[j].memory.id in SourceIds(Pairs(rule, Order(cs)))
    ensures cs[j] in Order(cs)
  {
    hide Order, Pairs, Ids;
    var xs, id := Order(cs), cs[j].memory.id;
    var pairs := Pairs(rule, xs);
    var k :| 0 <= k < |pairs| && SourceIds(pairs)[k] == id;
    assert pairs[k] in pairs;
    PairsAreMembers(rule, xs);
    IdsMember(xs[if xs == [] then 0 else 1..], id);
    var x :| x in xs && x.memory.id == id;
    VisitedAreUsable(cs, x);
    SameIdSame(cs, x, cs[j]);
  }

  lemma NotBeforeItself(xs: seq<Candidate>, l: Candidate)
    requires DistinctIds(xs)
    ensures !Precedes(xs, l, l)
  {
  }

  lemma NotEarlierThanItself(cs: seq<Candidate>, i: nat, j: nat)
    requires i < |cs| && j < |cs| && Earlier(cs, i, j)
    ensures i != j && !Earlier(cs, j, i)
  {
  }

  lemma SimilarIsUsable(threshold: Option<real>, crossScope: bool, sqrt: real -> real, l: Candidate, o: Candidate)
    requires Similar(threshold, crossScope, sqrt, l, o)
    ensures Usable(l) && Usable(o)
  {
  }

  lemma LinkedAt(threshold: Option<real>, crossScope: bool, sqrt: real -> real, cs: seq<Candidate>, i: nat, j: nat)
    requires Similarity.IsSqrt(sqrt) && OneLength(crossScope, cs) && i < |cs| && j < |cs| && Usable(cs[i]) && Usable(cs[j])
    ensures Links(CosineRule(threshold, crossScope), cs[i], cs[j]) <==> Similar(threshold, crossScope, sqrt, cs[i], cs[j])
  {
    hide CosineRule, Similar, Links, Similarity.IsSqrt;
    assert cs[i] in cs && cs[j] in cs;
    LinksMeans(threshold, crossScope, sqrt, cs[i], cs[j]);
  }

  lemma LeadersAreUnlinked(rule: Rule, xs: seq<Candidate>, a: Candidate, b: Candidate)
    requires DistinctIds(xs) && FirstFit(rule, xs, Leaders(rule, xs)) && Precedes(xs, a, b) && !Precedes(xs, b, a)
    ensures a in Leaders(rule, xs) && b in Leaders(rule, xs) ==> !Links(rule, a, b)
  {
    hide Leaders, Links;
    var ls := Leaders(rule, xs);
    if a in ls && b in ls {
      var p :| 0 <= p < |ls| && ls[p] == a;
      var q :| 0 <= q < |ls| && ls[q] == b;
      assert p < q || q < p || p == q;
      NotBeforeItself(xs, a);
    }
  }

  /** Of several similar survivors the earliest takes the memory. */
  lemma PairsExactly(threshold: Option<real>, crossScope: bool, sqrt: real -> real, cs: seq<Candidate>, i: nat, j: nat)
    requires Similarity.IsSqrt(sqrt) && DistinctIds(cs) && OneLength(crossScope, cs) && i < |cs| && j < |cs|
    ensures var gone, r := Consumed(threshold, crossScope, cs), Simple(CosineRule(threshold, crossScope), None, cs);
      r.Ok? && ((cs[i].memory.id, cs[j].memory.id) in ActionPairs(r.value) <==>
        && cs[i].memory.id !in gone && Earlier(cs, i, j) && Similar(threshold, crossScope, sqrt, cs[i], cs[j])
        && forall k :: 0 <= k < |cs| && cs[k].memory.id !in gone && Earlier(cs, k, i) ==>
             !Similar(threshold, crossScope, sqrt, cs[k], cs[j]))
  {
    hide Order, CosineRule, Simple, Pairs, Leaders, SourceIds, Consumed, Earlier, Similar, Links, Precedes, OneLength, FirstLeaderOf;
    var rule, xs := CosineRule(threshold, crossScope), Order(cs);
    var gone, pair := Consumed(threshold, crossScope, cs), (cs[i].memory.id, cs[j].memory.id);
    RunFacts(threshold, crossScope, cs);
    if pair in Pairs(rule, xs) {
      PairFacts(threshold, crossScope, sqrt, cs, i, j);
      forall k | 0 <= k < |cs| && cs[k].memory.id !in gone && Earlier(cs, k, i)
        ensures !Similar(threshold, crossScope, sqrt, cs[k], cs[j])
      {
        FirstOfSimilar(threshold, crossScope, sqrt, cs, i, j, k);
      }
    }
    if && cs[i].memory.id !in gone && Earlier(cs, i, j) && Similar(threshold, crossScope, sqrt, cs[i], cs[j])
       && forall k :: 0 <= k < |cs| && cs[k].memory.id !in gone && Earlier(cs, k, i) ==>
            !Similar(threshold, crossScope, sqrt, cs[k], cs[j])
    {
      ConsumedExactly(threshold, crossScope, sqrt, cs, j);
      var h := TakenBy(threshold, crossScope, sqrt, cs, j);
      if h != i {
        EarlierIsTotal(cs, h, i);
        if Earlier(cs, i, h) {
          FirstOfSimilar(threshold, crossScope, sqrt, cs, h, j, i);
        }
      }
    }
  }

  lemma EarlierIsTotal(cs: seq<Candidate>, i: nat, j: nat)
    requires i < |cs| && j < |cs| && i != j
    ensures Earlier(cs, i, j) <==> !Earlier(cs, j, i)
  {
  }

  /** Who takes a memory that is merged away. */
  lemma TakenBy(threshold: Option<real>, crossScope: bool, sqrt: real -> real, cs: seq<Candidate>, j: nat) returns (h: nat)
    requires Similarity.IsSqrt(sqrt) && DistinctIds(cs) && OneLength(crossScope, cs) && j < |cs|
    requires cs[j].memory.id in Consumed(threshold, crossScope, cs)
    ensures h < |cs| && (cs[h].memory.id, cs[j].memory.id) in Pairs(CosineRule(threshold, crossScope), Order(cs))
    ensures cs[h].memory.id !in Consumed(threshold, crossScope, cs) && Similar(threshold, crossScope, sqrt, cs[h], cs[j])
  {
    hide Order, CosineRule, Simple, Pairs, Leaders, Consumed, Earlier, Similar, Links, Precedes, OneLength, FirstLeaderOf, Ids;
    var rule, xs := CosineRule(threshold, crossScope), Order(cs);
    RunFacts(threshold, crossScope, cs);
    var pairs := Pairs(rule, xs);
    var k :| 0 <= k < |pairs| && SourceIds(pairs)[k] == cs[j].memory.id;
    assert pairs[k] in pairs;
    PairsAreMembers(rule, xs);
    IdsMember(xs, pairs[k].0);
    var l :| l in xs && l.memory.id == pairs[k].0;
    VisitedAreUsable(cs, l);
    h :| 0 <= h < |cs| && cs[h] == l;
    PairFacts(threshold, crossScope, sqrt, cs, h, j);
  }

  lemma PairFacts(threshold: Option<real>, crossScope: bool, sqrt: real -> real, cs: seq<Candidate>, i: nat, j: nat)
    requires Similarity.IsSqrt(sqrt) && DistinctIds(cs) && OneLength(crossScope, cs) && i < |cs| && j < |cs|
    requires (cs[i].memory.id, cs[j].memory.id) in Pairs(CosineRule(threshold, crossScope), Order(cs))
    ensures cs[i] in Order(cs) && cs[j] in Order(cs)
    ensures FirstLeaderOf(CosineRule(threshold, crossScope), Leaders(CosineRule(threshold, crossScope), Order(cs)), cs[i], cs[j])
    ensures cs[i].memory.id !in Consumed(threshold, crossScope, cs) && Earlier(cs, i, j)
    ensures Similar(threshold, crossScope, sqrt, cs[i], cs[j])
  {
    hide Order, CosineRule, Simple, Pairs, Leaders, SourceIds, Consumed, Earlier, Similar, Links, Precedes, OneLength, Ids, FirstLeaderOf;
    var rule, xs := CosineRule(threshold, crossScope), Order(cs);
    RunFacts(threshold, crossScope, cs);
    PairsAreMembers(rule, xs);
    MemberOf(cs, i, xs);
    MemberOf(cs, j, xs[if xs == [] then 0 else 1..]);
    PairIffFirstLeader(rule, xs, cs[i], cs[j]);
    FirstLeaderLinks(rule, Leaders(rule, xs), cs[i], cs[j]);
    SourceIffNotLeader(rule, xs, cs[i]);
    SourceIffNotLeader(rule, xs, cs[j]);
    VisitedAreUsable(cs, cs[i]);
    VisitedAreUsable(cs, cs[j]);
    LinkedAt(threshold, crossScope, sqrt, cs, i, j);
    PairIsEarlier(rule, cs, i, j);
  }

  /** A memory of the store whose id is visited is visited itself. */
  lemma MemberOf(cs: seq<Candidate>, i: nat, visited: seq<Candidate>)
    requires DistinctIds(cs) && i < |cs| && cs[i].memory.id in Ids(visited) && forall y :: y in visited ==> y in Order(cs)
    ensures cs[i] in Order(cs)
  {
    hide Order, Ids;
    IdsMember(visited, cs[i].memory.id);
    var y :| y in visited && y.memory.id == cs[i].memory.id;
    VisitedAreUsable(cs, y);
    SameIdSame(cs, y, cs[i]);
  }

  lemma FirstLeaderLinks(rule: Rule, ls: seq<Candidate>, l: Candidate, s: Candidate)
    requires FirstLeaderOf(rule, ls, l, s)
    ensures l in ls && s !in ls && Links(rule, l, s)
  {
    hide Links;
  }

  /** The survivor of a pair comes first: otherwise a leader before it would have the source. */
  lemma PairIsEarlier(rule: Rule, cs: seq<Candidate>, i: nat, j: nat)
    requires DistinctIds(cs) && i < |cs| && j < |cs| && cs[i] in Order(cs) && cs[j] in Order(cs)
    requires FirstLeaderOf(rule, Leaders(rule, Order(cs)), cs[i], cs[j])
    ensures Earlier(cs, i, j)
  {
    hide Order, Leaders, Earlier, Links, Precedes;
    var xs := Order(cs);
    var ls := Leaders(rule, xs);
    LeadersAreFirstFit(rule, xs);
    var g :| 0 <= g < |ls| && ls[g] == cs[i] && Links(rule, cs[i], cs[j]) && forall h :: 0 <= h < g ==> !Links(rule, ls[h], cs[j]);
    var l :| l in ls && Precedes(xs, l, cs[j]) && Links(rule, l, cs[j]);
    var h :| 0 <= h < |ls| && ls[h] == l;
    OrderFacts(cs);
    if h > g {
      assert Precedes(xs, ls[g], ls[h]);
      PrecedesTransitive(xs, cs[i], l, cs[j]);
    }
    VisitedAreUsable(cs, cs[i]);
    VisitedAreUsable(cs, cs[j]);
    PrecedesIsEarlier(cs, i, j);
  }

  lemma PrecedesTransitive(xs: seq<Candidate>, a: Candidate, b: Candidate, c: Candidate)
    requires DistinctIds(xs) && Precedes(xs, a, b) && Precedes(xs, b, c)
    ensures Precedes(xs, a, c)
  {
    var i, j :| 0 <= i < j < |xs| && xs[i] == a && xs[j] == b;
    var k, l :| 0 <= k < l < |xs| && xs[k] == b && xs[l] == c;
    assert j == k;
  }

  lemma FirstOfSimilar(threshold: Option<real>, crossScope: bool, sqrt: real -> real, cs: seq<Candidate>, i: nat, j: nat, k: nat)
    requires Similarity.IsSqrt(sqrt) && DistinctIds(cs) && OneLength(crossScope, cs) && i < |cs| && j < |cs| && k < |cs|
    requires (cs[i].memory.id, cs[j].memory.id) in Pairs(CosineRule(threshold, crossScope), Order(cs))
    requires cs[k].memory.id !in Consumed(threshold, crossScope, cs) && Earlier(cs, k, i)
    ensures !Similar(threshold, crossScope, sqrt, cs[k], cs[j])
  {
    hide Order, CosineRule, Simple, Pairs, Leaders, SourceIds, Consumed, Earlier, Similar, Links, Precedes, OneLength, FirstLeaderOf;
    var rule, xs := CosineRule(threshold, crossScope), Order(cs);
    RunFacts(threshold, crossScope, cs);
    PairFacts(threshold, crossScope, sqrt, cs, i, j);
    if Similar(threshold, crossScope, sqrt, cs[k], cs[j]) {
      SimilarIsUsable(threshold, crossScope, sqrt, cs[k], cs[j]);
      VisitedAreUsable(cs, cs[k]);
      VisitedAreUsable(cs, cs[i]);
      SourceIffNotLeader(rule, xs, cs[k]);
      LinkedAt(threshold, crossScope, sqrt, cs, k, j);
      NotEarlierThanItself(cs, k, i);
      PrecedesIsEarlier(cs, k, i);
      PrecedesIsEarlier(cs, i, k);
      NoEarlierLeaderLinks(rule, xs, cs[i], cs[j], cs[k]);
    }
  }

  lemma FirstFitOrder(rule: Rule, xs: seq<Candidate>, ls: seq<Candidate>, g: nat, h: nat)
    requires FirstFit(rule, xs, ls) && g < |ls| && h < |ls|
    ensures g < h ==> Precedes(xs, ls[g], ls[h])
  {
  }

  lemma NoEarlierLeaderLinks(rule: Rule, xs: seq<Candidate>, l: Candidate, s: Candidate, k: Candidate)
    requires DistinctIds(xs) && FirstLeaderOf(rule, Leaders(rule, xs), l, s)
    requires k in Leaders(rule, xs) && Precedes(xs, k, l) && !Precedes(xs, l, k)
    ensures !Links(rule, k, s)
  {
    hide Leaders, Links, Precedes;
    LeadersAreFirstFit(rule, xs);
    var ls := Leaders(rule, xs);
    var g :| 0 <= g < |ls| && ls[g] == l && Links(rule, l, s) && forall h :: 0 <= h < g ==> !Links(rule, ls[h], s);
    var h :| 0 <= h < |ls| && ls[h] == k;
    NotBeforeItself(xs, l);
    FirstFitOrder(rule, xs, ls, g, h);
  }

  // ----- what the commands leave

  lemma CosineCommutes(a: Similarity.Embedding, b: Similarity.Embedding, sqrt: real -> real)
    requires |a| == |b|
    ensures Similarity.Cosine(a, b, sqrt) == Similarity.Cosine(b, a, sqrt)
  {
    hide Similarity.Dot, Similarity.NormSquared, Similarity.ClampedQuotient;
    Similarity.DotCommutes(a, b);
    var l, r := sqrt(Similarity.NormSquared(a)), sqrt(Similarity.NormSquared(b));
    assert l * r == r * l;
  }

  lemma SimilarCommutes(threshold: Option<real>, crossScope: bool, sqrt: real -> real, l: Candidate, o: Candidate)
    ensures Similar(threshold, crossScope, sqrt, l, o) <==> Similar(threshold, crossScope, sqrt, o, l)
  {
    hide Similarity.Cosine, Level;
    if l.embedding.Some? && o.embedding.Some? && |l.embedding.value| == |o.embedding.value| {
      CosineCommutes(l.embedding.value, o.embedding.value, sqrt);
    }
  }

  lemma ComparableIsOneLength(threshold: Option<real>, crossScope: bool, cs: seq<Candidate>)
    requires Comparable(CosineRule(threshold, crossScope), Order(cs))
    ensures OneLength(crossScope, cs)
  {
    hide Order, CosineRule;
    CrossScopeOf(threshold, crossScope);
    forall a, b | a in cs && b in cs && Usable(a) && Usable(b) && OneZone(crossScope, a, b)
      ensures |a.embedding.value| == |b.embedding.value|
    {
      VisitedAreUsable(cs, a);
      VisitedAreUsable(cs, b);
    }
  }

  /** Where an unlimited run finds nothing, no two memories are similar. */
  lemma NothingSimilarLeft(threshold: Option<real>, crossScope: bool, sqrt: real -> real, cs: seq<Candidate>, a: Candidate, b: Candidate)
    requires Similarity.IsSqrt(sqrt) && DistinctIds(cs) && OneLength(crossScope, cs)
    requires Simple(CosineRule(threshold, crossScope), None, cs) == Ok([])
    requires a in cs && b in cs && a != b
    ensures !Similar(threshold, crossScope, sqrt, a, b)
  {
    hide CosineRule, Simple, Similar, OneLength;
    var i :| 0 <= i < |cs| && cs[i] == a;
    var j :| 0 <= j < |cs| && cs[j] == b;
    assert Consumed(threshold, crossScope, cs) == [] by {
      assert ActionPairs([]) == [] && SourceIds([]) == [];
    }
    ConsumedExactly(threshold, crossScope, sqrt, cs, i);
    ConsumedExactly(threshold, crossScope, sqrt, cs, j);
    EarlierIsTotal(cs, i, j);
    SimilarCommutes(threshold, crossScope, sqrt, a, b);
  }

  /**
   * As many commands as there are pairs, whatever cap is configured and however promotions reorder the listings, leave
   * no two active memories whose cosine reaches the threshold and whose scopes may be merged.
   */
  lemma CommandsLeaveNothingSimilar(threshold: Option<real>, crossScope: bool, cap: Option<nat>, sqrt: real -> real,
                                    stamps: seq<MemoryId -> int>, stores: seq<seq<Candidate>>, a: Candidate, b: Candidate)
    requires Similarity.IsSqrt(sqrt)
    requires var rule := CosineRule(threshold, crossScope);
      && |stores| > 1 && ListedRun(rule, PairLimit(cap), stamps, stores)
      && OneLength(crossScope, stores[0]) && |stores| - 1 >= |AllPairs(rule, stores[0])|
    requires a in stores[|stores| - 1] && b in stores[|stores| - 1] && a != b
    ensures !Similar(threshold, crossScope, sqrt, a, b)
  {
    hide CosineRule, Simple, OneLength, Similar, Comparable, Order, AllPairs, Listed, ListedNext, DistinctIds, Relisted, SameMembers,
      Batch, Settled, PairLimit, Reach, Symmetric;
    var rule, last := CosineRule(threshold, crossScope), stores[|stores| - 1];
    OneLengthIsComparable(threshold, crossScope, stores[0]);
    CommandsEndAlike(threshold, crossScope, cap, stamps, stores, None);
    CosineIsSymmetric(threshold, crossScope);
    ListedRunRelists(rule, PairLimit(cap), stamps, stores);
    RelistedBatchesSettle(rule, PairLimit(cap), stores);
    ComparableIsOneLength(threshold, crossScope, last);
    NothingSimilarLeft(threshold, crossScope, sqrt, last, a, b);
  }

  // ----- what a run writes

  /** The highest of the scopes. */
  ghost predicate IsHighest(scope: MemoryScope, l: Candidate, sources: seq<Candidate>) {
    && l.memory.scope.Rank() <= scope.Rank()
    && (forall s :: s in sources ==> s.memory.scope.Rank() <= scope.Rank())
    && (scope == l.memory.scope || exists s :: s in sources && s.memory.scope == scope)
  }

  lemma {:induction false} HighestIsHighest(l: Candidate, sources: seq<Candidate>)
    ensures IsHighest(HighestScope(l.memory.scope, sources), l, sources)
  {
    if sources != [] {
      var n := |sources| - 1;
      HighestIsHighest(l, sources[..n]);
      assert sources == sources[..n] + [sources[n]];
      var before := HighestScope(l.memory.scope, sources[..n]);
      assert before.Max(sources[n].memory.scope).Rank() >= before.Rank();
      if before != l.memory.scope {
        var s :| s in sources[..n] && s.memory.scope == before;
        assert s in sources;
      }
      assert sources[n] in sources;
    }
  }

  /** The survivor as it was, but for its scope: the highest of its group where scopes are crossed, its own otherwise. */
  ghost predicate KeepsSurvivor(crossScope: bool, xs: seq<Candidate>, a: Action) {
    a.Merged? && exists l, sources: seq<Candidate> ::
      && l in xs && sources != [] && (forall s :: s in sources ==> s in xs)
      && a.sourceIds == Ids(sources) && a.result == l.memory.(scope := a.result.scope)
      && if crossScope then IsHighest(a.result.scope, l, sources) else a.result.scope == l.memory.scope
  }

  lemma KeepsInMore(crossScope: bool, xs: seq<Candidate>, ys: seq<Candidate>, actions: seq<Action>)
    requires forall x :: x in xs ==> x in ys
    requires forall a :: a in actions ==> KeepsSurvivor(crossScope, xs, a)
    ensures forall a :: a in actions ==> KeepsSurvivor(crossScope, ys, a)
  {
    forall a | a in actions ensures KeepsSurvivor(crossScope, ys, a) {
      assert KeepsSurvivor(crossScope, xs, a);
    }
  }

  lemma FirstActionKeeps(rule: Rule, xs: seq<Candidate>, sources: seq<Candidate>)
    requires xs != [] && forall s :: s in sources ==> s in xs
    ensures forall a :: a in SimpleAction(rule, xs[0], sources) ==> KeepsSurvivor(rule.crossScope, xs, a)
  {
    hide Ids, HighestScope;
    HighestIsHighest(xs[0], sources);
    assert xs[0] in xs;
  }

  lemma {:induction false} RunKeepsSurvivors(rule: Rule, limit: Option<nat>, xs: seq<Candidate>, processed: nat)
    ensures var r := RunSimple(rule, limit, xs, processed);
      r.Ok? ==> forall a :: a in r.value ==> KeepsSurvivor(rule.crossScope, xs, a)
    decreases |xs|
  {
    hide ScanSimple, SimpleAction, KeepsSurvivor;
    if xs != [] {
      SimpleScanMembers(rule, limit, xs[0], xs[1..], processed);
      var scan := ScanSimple(rule, limit, xs[0], xs[1..], processed);
      if scan.Ok? {
        assert xs == [xs[0]] + xs[1..];
        FirstActionKeeps(rule, xs, scan.value.sources);
        RunKeepsSurvivors(rule, limit, scan.value.kept, scan.value.processed);
        var rest := RunSimple(rule, limit, scan.value.kept, scan.value.processed);
        if rest.Ok? {
          KeepsInMore(rule.crossScope, scan.value.kept, xs, rest.value);
        }
      }
    }
  }

  /** Every action of the strategy names memories given to it, and changes no more than the survivor's scope. */
  lemma ResultsExactly(threshold: Option<real>, crossScope: bool, limit: Option<nat>, cs: seq<Candidate>)
    ensures var r := Simple(CosineRule(threshold, crossScope), limit, cs);
      r.Ok? ==> forall a :: a in r.value ==> KeepsSurvivor(crossScope, cs, a)
  {
    hide CosineRule, Order, RunSimple, KeepsSurvivor;
    var rule := CosineRule(threshold, crossScope);
    CrossScopeOf(threshold, crossScope);
    RunKeepsSurvivors(rule, limit, Order(cs), 0);
    forall x | x in Order(cs) ensures x in cs {
      VisitedAreUsable(cs, x);
    }
    OrderOf(cs);
    var r := Simple(rule, limit, cs);
    if r.Ok? {
      KeepsInMore(crossScope, Order(cs), cs, r.value);
    }
  }

  lemma OrderOf(cs: seq<Candidate>)
    ensures Order(cs) == PriorityOrder(PrepareAll(cs))
  {
  }

  // ----- runs that fail

  lemma {:induction false} ScanDecides(rule: Rule, l: Candidate, others: seq<Candidate>, processed: nat)
    ensures var r := ScanSimple(rule, None, l, others, processed);
      r.Ok? ==>
        && !r.value.limitReached
        && (forall x :: x in others ==> Compare(rule, l, x).Ok?)
        && (forall x :: x in r.value.sources <==> x in others && Compare(rule, l, x) == Ok(true))
        && (forall x :: x in r.value.kept <==> x in others && Compare(rule, l, x) == Ok(false))
    decreases |others|
  {
    hide Compare;
    if others != [] {
      assert others == [others[0]] + others[1..];
      ScanDecides(rule, l, others[1..], processed);
      ScanDecides(rule, l, others[1..], processed + 1);
    }
  }

  lemma {:induction false} ScanKeepsOrder(rule: Rule, l: Candidate, others: seq<Candidate>, processed: nat, a: Candidate, b: Candidate)
    requires Precedes(others, a, b) && Compare(rule, l, a) == Ok(false) && Compare(rule, l, b) == Ok(false)
    ensures var r := ScanSimple(rule, None, l, others, processed); r.Ok? ==> Precedes(r.value.kept, a, b)
    decreases |others|
  {
    hide Compare, Precedes;
    NothingPrecedes(a, b);
    if others != [] {
      var c, rest := others[0], others[1..];
      assert others == [c] + rest;
      PrecedesCons(c, rest, a, b);
      var next := if Compare(rule, l, c) == Ok(true) then processed + 1 else processed;
      ScanDecides(rule, l, rest, next);
      var r := ScanSimple(rule, None, l, rest, next);
      if Precedes(rest, a, b) {
        ScanKeepsOrder(rule, l, rest, next, a, b);
      }
      if r.Ok? {
        PrecedesCons(c, r.value.kept, a, b);
      }
    }
  }

  lemma NothingPrecedes(a: Candidate, b: Candidate)
    ensures !Precedes([], a, b)
  {
  }

  lemma {:induction false} ScanFails(rule: Rule, limit: Option<nat>, l: Candidate, others: seq<Candidate>, processed: nat)
    ensures var r := ScanSimple(rule, limit, l, others, processed);
      && (r.Err? ==> exists o :: o in others && Compare(rule, l, o) == Err(r.error))
      && (r.Ok? ==> |r.value.kept| <= |others| && forall x :: x in r.value.kept ==> x in others)
    decreases |others|
  {
    hide Compare;
    if others != [] {
      assert others == [others[0]] + others[1..];
      ScanFails(rule, limit, l, others[1..], processed);
      ScanFails(rule, limit, l, others[1..], processed + 1);
    }
  }

  /** A run that fails has compared two of its candidates and found the error. */
  lemma {:induction false} RunFailsOnAPair(rule: Rule, limit: Option<nat>, xs: seq<Candidate>, processed: nat)
    ensures var r := RunSimple(rule, limit, xs, processed);
      r.Err? ==> exists a, b :: a in xs && b in xs && Compare(rule, a, b) == Err(r.error)
    decreases |xs|
  {
    hide Compare, ScanSimple, SimpleAction;
    if xs != [] {
      ScanFails(rule, limit, xs[0], xs[1..], processed);
      assert xs == [xs[0]] + xs[1..];
      var scan := ScanSimple(rule, limit, xs[0], xs[1..], processed);
      if scan.Ok? && !scan.value.limitReached {
        RunFailsOnAPair(rule, limit, scan.value.kept, scan.value.processed);
      }
    }
  }

  /** An unlimited run that succeeds has compared every two survivors and found no error and no match. */
  lemma {:induction false} SurvivorsCompareFalse(rule: Rule, xs: seq<Candidate>, processed: nat, a: Candidate, b: Candidate)
    requires DistinctIds(xs) && Precedes(xs, a, b) && RunSimple(rule, None, xs, processed).Ok?
    requires var gone := SourceIds(ActionPairs(RunSimple(rule, None, xs, processed).value));
      a.memory.id !in gone && b.memory.id !in gone
    ensures Compare(rule, a, b) == Ok(false)
    decreases |xs|
  {
    hide Compare, ScanSimple, SimpleAction, Precedes, SourceIds, ActionPairs, Ids, PairUp;
    NothingPrecedes(a, b);
    var l, others := xs[0], xs[1..];
    assert xs == [l] + others;
    PrecedesCons(l, others, a, b);
    ScanDecides(rule, l, others, processed);
    var scan := ScanSimple(rule, None, l, others, processed).value;
    var first, rest := SimpleAction(rule, l, scan.sources), RunSimple(rule, None, scan.kept, scan.processed).value;
    assert RunSimple(rule, None, xs, processed).value == first + rest;
    SimpleActionPairs(rule, l, scan.sources);
    ActionPairsAppend(first, rest);
    SourceIdsAppend(ActionPairs(first), ActionPairs(rest));
    SourceIdsOfPairUp(l.memory.id, Ids(scan.sources));
    forall x | x in scan.sources ensures x.memory.id in SourceIds(ActionPairs(first + rest)) {
      IdsMember(scan.sources, x.memory.id);
    }
    PrecedesMembers(others, a, b);
    TrueOrFalse(Compare(rule, l, a));
    TrueOrFalse(Compare(rule, l, b));
    if Precedes(others, a, b) {
      ScanKeepsOrder(rule, l, others, processed, a, b);
      SimpleScanDistinct(rule, None, xs, processed);
      SurvivorsCompareFalse(rule, scan.kept, scan.processed, a, b);
    }
  }

  lemma TrueOrFalse<E>(r: Result<bool, E>)
    ensures r.Ok? ==> r == Ok(true) || r == Ok(false)
  {
    if r.Ok? && r.value {
      assert r == Ok(true);
    } else if r.Ok? {
      assert r == Ok(false);
    }
  }

  lemma PrecedesMembers(xs: seq<Candidate>, a: Candidate, b: Candidate)
    ensures Precedes(xs, a, b) ==> a in xs && b in xs
  {
  }

  /** A cap bounds the pairs that one run merges, and takes no more away: zero and none are no cap. */
  lemma CapBounds(threshold: Option<real>, crossScope: bool, cap: Option<nat>, cs: seq<Candidate>)
    requires DistinctIds(cs) && OneLength(crossScope, cs)
    ensures var rule := CosineRule(threshold, crossScope);
      var all, r := AllPairs(rule, cs), Simple(rule, PairLimit(cap), cs);
      r.Ok? && ActionPairs(r.value) == if cap == None || cap == Some(0) then all else Take(cap.value, all)
  {
    hide CosineRule, Simple, AllPairs, OneLength, Comparable;
    OneLengthIsComparable(threshold, crossScope, cs);
    BatchSettles(CosineRule(threshold, crossScope), PairLimit(cap), cs);
  }

  /** What takes part in a run that can ask for embeddings: active memories with a stored vector, or with one answered. */
  predicate UsableWith(embed: string -> Option<Similarity.Embedding>, c: Candidate, x: Candidate) {
    var stored := c.embedding.Some? && c.embedding.value != [];
    var answer := embed(c.memory.content);
    && c.memory.state == Active
    && if stored then x == c else answer.Some? && answer.value != [] && x == Candidate(c.memory, answer)
  }

  lemma VisitedWithEmbeddings(embed: string -> Option<Similarity.Embedding>, cs: seq<Candidate>, x: Candidate)
    ensures x in PriorityOrder(PrepareAllWith(embed, cs)) <==> exists c :: c in cs && UsableWith(embed, c, x)
  {
    hide PriorityOrder;
    var ps := PrepareAllWith(embed, cs);
    OrderMembers(ps);
    if x in ps && Ready(x) {
      var i :| 0 <= i < |ps| && ps[i] == x;
      assert UsableWith(embed, cs[i], x);
    }
    if c :| c in cs && UsableWith(embed, c, x) {
      var i :| 0 <= i < |cs| && cs[i] == c;
      assert ps[i] == PrepareWith(embed, c) == x;
    }
  }
}
