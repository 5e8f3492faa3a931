/**
 * Which questions a run of the LLM strategy asks (plugins/memory/src/consolidator.rs, LlmConsolidator::consolidate).
 */
module LlmQuestions {
  import opened Wrappers
  import opened Candidates
  import opened SimpleStrategy
  import opened Clusters
  import opened ClusterFacts
  import opened LlmStrategy
  import opened LlmFacts
  import opened LlmRuns
  import opened Relisting
  import opened CosineRuns
  import opened LlmAnswers
  import Text

  // ----- one survivor, without a limit

  /** What an unlimited scan does with each of the others. */
  ghost predicate Sorts(rule: Rule, l: Candidate, others: seq<Candidate>, s: LlmScan) {
    && !s.limitReached && DistinctIds(s.kept)
    && (forall x :: x in others ==> Compare(rule, l, x).Ok?)
    && (forall x :: x in s.sources || x in s.kept <==> x in others)
    && (forall x :: x in s.sources ==> x !in s.kept)
    && (forall x :: x in others ==> (x.memory.id in s.asked <==> Compare(rule, l, x) == Ok(true)))
    && (forall x :: x in s.sources ==> Compare(rule, l, x) == Ok(true))
    && (forall id :: id in s.asked ==> id in Ids(others))
  }

  lemma SortsStart(rule: Rule, l: Candidate, content: string, processed: nat)
    ensures Sorts(rule, l, [], LlmScan([], [], [], [], content, processed, false))
  {
  }

  lemma SortsStep(rule: Rule, l: Candidate, c: Candidate, rest: seq<Candidate>, description: string, r: LlmScanResult)
    requires DistinctIds([c] + rest) && r.Ok? && Sorts(rule, l, rest, r.value)
    ensures Compare(rule, l, c) == Ok(false) ==> Sorts(rule, l, [c] + rest, PassOver(c, r).value)
    ensures Compare(rule, l, c) == Ok(true) ==> Sorts(rule, l, [c] + rest, TakeIn(c, r).value)
    ensures Compare(rule, l, c) == Ok(true) ==> Sorts(rule, l, [c] + rest, Oppose(l, c, description, r).value)
  {
    hide Compare, Ids;
    var all := [c] + rest;
    IdsCons(c, rest);
    forall x | x in rest ensures x.memory.id != c.memory.id {
      var k :| 0 <= k < |rest| && rest[k] == x;
      assert all[0].memory.id != all[k + 1].memory.id;
    }
    IdsMember(rest, c.memory.id);
    KeepDistinct(c, r.value.kept);
  }

  lemma {:induction false} ScanSorts(text: Text.Rules, rule: Rule, tape: Tape, l: Candidate, others: seq<Candidate>,
                                     content: string, processed: nat)
    requires DistinctIds(others)
    ensures var r := ScanLlm(text, rule, None, tape, l, others, content, processed);
      r.Ok? ==> Sorts(rule, l, others, r.value)
    decreases |others|
  {
    hide Compare, MergedContent, Sorts, DistinctIds;
    SortsStart(rule, l, content, processed);
    if others != [] {
      var c, rest := others[0], others[1..];
      assert others == [c] + rest;
      DistinctIdsTail(rule, others);
      var asking := Compare(rule, l, c) == Ok(true);
      var merged := if !asking || tape(processed).Contradict? then content else MergedContent(text, rule, tape(processed), l, c, content);
      var next := if asking then processed + 1 else processed;
      ScanSorts(text, rule, tape, l, rest, merged, next);
      var r := ScanLlm(text, rule, None, tape, l, rest, merged, next);
      TrueOrFalse(Compare(rule, l, c));
      if r.Ok? {
        SortsStep(rule, l, c, rest, if tape(processed).Contradict? then tape(processed).description else "", r);
      }
    }
  }

  /** The others that are kept stay in their order. */
  lemma {:induction false} LlmScanKeepsOrder(text: Text.Rules, rule: Rule, tape: Tape, l: Candidate, others: seq<Candidate>,
                                             content: string, processed: nat, a: Candidate, b: Candidate)
    requires DistinctIds(others)
    ensures var r := ScanLlm(text, rule, None, tape, l, others, content, processed);
      r.Ok? && a in r.value.kept && b in r.value.kept ==> (Precedes(r.value.kept, a, b) <==> Precedes(others, a, b))
    decreases |others|
  {
    hide Compare, MergedContent, Precedes, DistinctIds, Sorts;
    NothingPrecedes(a, b);
    if others != [] {
      var c, rest := others[0], others[1..];
      assert others == [c] + rest;
      DistinctIdsTail(rule, others);
      var asking := Compare(rule, l, c) == Ok(true);
      var merged := if !asking || tape(processed).Contradict? then content else MergedContent(text, rule, tape(processed), l, c, content);
      var next := if asking then processed + 1 else processed;
      LlmScanKeepsOrder(text, rule, tape, l, rest, merged, next, a, b);
      ScanSorts(text, rule, tape, l, rest, merged, next);
      var r := ScanLlm(text, rule, None, tape, l, rest, merged, next);
      TrueOrFalse(Compare(rule, l, c));
      PrecedesCons(c, rest, a, b);
      PrecedesMembers(rest, a, b);
      if r.Ok? {
        PrecedesCons(c, r.value.kept, a, b);
        PrecedesMembers(r.value.kept, a, b);
        KeptAreRest(rule, l, c, rest, r.value);
      }
    }
  }

  lemma KeptAreRest(rule: Rule, l: Candidate, c: Candidate, rest: seq<Candidate>, s: LlmScan)
    requires Sorts(rule, l, rest, s) && forall x :: x in rest ==> x.memory.id != c.memory.id
    ensures forall x :: x in s.kept ==> x in rest
    ensures c !in s.kept && c !in rest
  {
  }

  // ----- whole runs, without a limit

  /**
   * A question is asked about two candidates, the earlier one first, if and only if they may be merged and are similar,
   * and by then neither has been merged away: the earlier one never is, and no still earlier one has taken the other.
   */
  ghost predicate AskedWhen(rule: Rule, xs: seq<Candidate>, o: LlmOutcome, a: Candidate, b: Candidate) {
    (a.memory.id, b.memory.id) in o.asked <==>
      && Precedes(xs, a, b) && Compare(rule, a, b) == Ok(true)
      && a.memory.id !in SourceIds(ActionPairs(o.actions))
      && forall c :: Precedes(xs, c, a) ==> (c.memory.id, b.memory.id) !in ActionPairs(o.actions)
  }

  /** The first survivor's questions and pairs, then those of the run on what it keeps. */
  ghost predicate SplitsAt(rule: Rule, xs: seq<Candidate>, s: LlmScan, o: LlmOutcome, rest: LlmOutcome) {
    && xs != [] && DistinctIds(xs) && Sorts(rule, xs[0], xs[1..], s)
    && o.asked == PairUp(xs[0].memory.id, s.asked) + rest.asked
    && ActionPairs(o.actions) == PairUp(xs[0].memory.id, Ids(s.sources)) + ActionPairs(rest.actions)
    && Within(rest.asked, Ids(s.kept)) && Within(ActionPairs(rest.actions), Ids(s.kept))
  }

  lemma RunSplits(text: Text.Rules, rule: Rule, tape: Tape, xs: seq<Candidate>, processed: nat) returns (s: LlmScan, rest: LlmOutcome)
    requires xs != [] && DistinctIds(xs) && RunLlm(text, rule, None, tape, xs, processed).Ok?
    ensures SplitsAt(rule, xs, s, RunLlm(text, rule, None, tape, xs, processed).value, rest)
    ensures RunLlm(text, rule, None, tape, s.kept, s.processed) == Ok(rest)
    ensures |s.kept| < |xs| && (forall a, b :: a in s.kept && b in s.kept ==> (Precedes(s.kept, a, b) <==> Precedes(xs[1..], a, b)))
  {
    hide ScanLlm, LlmActions, PairUp, ActionPairs, ContradictionPairs, Within, ActsWithin, Sorts, Separated, Accounted, DistinctIds,
      Ids, Precedes;
    var l := xs[0];
    DistinctIdsTail(rule, xs);
    s := ScanLlm(text, rule, None, tape, l, xs[1..], l.memory.content, processed).value;
    ScanSorts(text, rule, tape, l, xs[1..], l.memory.content, processed);
    ScanAccounted(text, rule, None, tape, l, xs[1..], l.memory.content, processed);
    SortedIsUnlimited(rule, l, xs[1..], s);
    rest := RunLlm(text, rule, None, tape, s.kept, s.processed).value;
    FirstOutcome(rule, l, xs[1..], processed, s);
    ActionPairsAppend(LlmActions(rule, l, s), rest.actions);
    NoPairIsAskedTwice(text, rule, None, tape, s.kept, s.processed);
    ContradictionWitnessIsNeverConsumed(text, rule, None, tape, s.kept, s.processed);
    ActsWithinIds(rest.actions, Ids(s.kept));
    forall a, b | a in s.kept && b in s.kept ensures Precedes(s.kept, a, b) <==> Precedes(xs[1..], a, b) {
      LlmScanKeepsOrder(text, rule, tape, l, xs[1..], l.memory.content, processed, a, b);
    }
  }

  lemma ActsWithinIds(actions: seq<Action>, ids: seq<MemoryId>)
    requires ActsWithin(actions, ids)
    ensures Within(ActionPairs(actions), ids)
  {
  }

  lemma SortedIsUnlimited(rule: Rule, l: Candidate, others: seq<Candidate>, s: LlmScan)
    requires Sorts(rule, l, others, s)
    ensures !s.limitReached && DistinctIds(s.kept)
  {
  }

  lemma InPairUp(id: MemoryId, ids: seq<MemoryId>, x: MemoryId, y: MemoryId)
    ensures (x, y) in PairUp(id, ids) <==> x == id && y in ids
  {
    if x == id && y in ids {
      var k :| 0 <= k < |ids| && ids[k] == y;
      assert PairUp(id, ids)[k] == (x, y);
    }
  }

  lemma InSources(pairs: seq<Pair>, y: MemoryId)
    ensures y in SourceIds(pairs) <==> exists p :: p in pairs && p.1 == y
  {
    if p :| p in pairs && p.1 == y {
      var k :| 0 <= k < |pairs| && pairs[k] == p;
      assert SourceIds(pairs)[k] == y;
    }
  }

  /** Which ids are whose. */
  lemma SplitIds(rule: Rule, xs: seq<Candidate>, s: LlmScan, o: LlmOutcome, rest: LlmOutcome, x: Candidate)
    requires SplitsAt(rule, xs, s, o, rest) && x in xs
    ensures (x == xs[0] <==> x.memory.id == xs[0].memory.id) && (x != xs[0] <==> x in xs[1..])
    ensures x.memory.id in Ids(s.kept) <==> x in s.kept
    ensures x.memory.id in Ids(s.sources) <==> x in s.sources
    ensures xs[0] !in s.kept && xs[0] !in s.sources
  {
    hide Ids, Compare;
    assert xs == [xs[0]] + xs[1..];
    SameIdSame(xs, x, xs[0]);
    DistinctIdsTail(rule, xs);
    IdsMember(s.kept, x.memory.id);
    IdsMember(s.sources, x.memory.id);
    forall y | y in s.kept || y in s.sources ensures y.memory.id == x.memory.id ==> y == x {
      SameIdSame(xs, x, y);
    }
  }

  lemma AskedInFirst(rule: Rule, xs: seq<Candidate>, s: LlmScan, o: LlmOutcome, rest: LlmOutcome, b: Candidate)
    requires SplitsAt(rule, xs, s, o, rest) && b in xs
    ensures AskedWhen(rule, xs, o, xs[0], b)
  {
    hide Ids, Compare, DistinctIds, ActionPairs, SourceIds, PairUp, Precedes;
    var l := xs[0];
    assert xs == [l] + xs[1..];
    assert l in xs;
    SplitIds(rule, xs, s, o, rest, l);
    SplitIds(rule, xs, s, o, rest, b);
    InPairUp(l.memory.id, s.asked, l.memory.id, b.memory.id);
    NotConsumedFirst(rule, xs, s, o, rest);
    forall c ensures !Precedes(xs, c, l) {
      PrecedesCons(l, xs[1..], c, l);
      PrecedesMembers(xs[1..], c, l);
    }
    PrecedesCons(l, xs[1..], l, b);
    PrecedesMembers(xs[1..], l, b);
    DistinctIdsTail(rule, xs);
    IdsMember(xs[1..], l.memory.id);
    assert (l.memory.id, b.memory.id) !in rest.asked;
  }

  lemma NotConsumedFirst(rule: Rule, xs: seq<Candidate>, s: LlmScan, o: LlmOutcome, rest: LlmOutcome)
    requires SplitsAt(rule, xs, s, o, rest)
    ensures xs[0].memory.id !in SourceIds(ActionPairs(o.actions))
  {
    hide Ids, Compare, DistinctIds, ActionPairs, PairUp, SourceIds;
    var l := xs[0];
    assert l in xs;
    SplitIds(rule, xs, s, o, rest, l);
    InSources(ActionPairs(o.actions), l.memory.id);
    forall p | p in ActionPairs(o.actions) ensures p.1 != l.memory.id {
      InPairUp(l.memory.id, Ids(s.sources), p.0, p.1);
      assert p == (p.0, p.1);
    }
  }

  lemma AskedOfFirst(rule: Rule, xs: seq<Candidate>, s: LlmScan, o: LlmOutcome, rest: LlmOutcome, a: Candidate)
    requires SplitsAt(rule, xs, s, o, rest) && a in xs && a != xs[0]
    ensures AskedWhen(rule, xs, o, a, xs[0])
  {
    hide Ids, Compare, DistinctIds, ActionPairs, SourceIds, PairUp;
    var l := xs[0];
    assert xs == [l] + xs[1..];
    assert l in xs;
    SplitIds(rule, xs, s, o, rest, l);
    SplitIds(rule, xs, s, o, rest, a);
    InPairUp(l.memory.id, s.asked, a.memory.id, l.memory.id);
    PrecedesCons(l, xs[1..], a, l);
    PrecedesMembers(xs[1..], a, l);
    assert (a.memory.id, l.memory.id) !in rest.asked;
  }

  /** A candidate that the first survivor takes is asked about no more. */
  lemma AskedOfTaken(rule: Rule, xs: seq<Candidate>, s: LlmScan, o: LlmOutcome, rest: LlmOutcome, a: Candidate, b: Candidate)
    requires SplitsAt(rule, xs, s, o, rest) && a in xs && b in xs && a != xs[0] && b != xs[0]
    requires a in s.sources || b in s.sources
    ensures AskedWhen(rule, xs, o, a, b)
  {
    hide Ids, Compare, DistinctIds, ActionPairs, SourceIds, PairUp;
    var l := xs[0];
    assert xs == [l] + xs[1..];
    SplitIds(rule, xs, s, o, rest, a);
    SplitIds(rule, xs, s, o, rest, b);
    InPairUp(l.memory.id, s.asked, a.memory.id, b.memory.id);
    assert (a.memory.id, b.memory.id) !in rest.asked;
    if a in s.sources {
      InPairUp(l.memory.id, Ids(s.sources), l.memory.id, a.memory.id);
      InSources(ActionPairs(o.actions), a.memory.id);
      assert (l.memory.id, a.memory.id) in ActionPairs(o.actions);
    } else {
      InPairUp(l.memory.id, Ids(s.sources), l.memory.id, b.memory.id);
      PrecedesCons(l, xs[1..], l, a);
      assert Precedes(xs, l, a) && (l.memory.id, b.memory.id) in ActionPairs(o.actions);
    }
  }

  /** Of two candidates that the first survivor leaves the run on what it keeps decides. */
  lemma AskedLater(rule: Rule, xs: seq<Candidate>, s: LlmScan, o: LlmOutcome, rest: LlmOutcome, a: Candidate, b: Candidate)
    requires SplitsAt(rule, xs, s, o, rest) && a in s.kept && b in s.kept
    requires forall x, y :: x in s.kept && y in s.kept ==> (Precedes(s.kept, x, y) <==> Precedes(xs[1..], x, y))
    requires AskedWhen(rule, s.kept, rest, a, b)
    ensures AskedWhen(rule, xs, o, a, b)
  {
    hide Ids, Compare, DistinctIds, ActionPairs, SourceIds, PairUp, Precedes;
    var l := xs[0];
    assert xs == [l] + xs[1..];
    assert a in xs && b in xs && l in xs;
    SplitIds(rule, xs, s, o, rest, l);
    SplitIds(rule, xs, s, o, rest, a);
    SplitIds(rule, xs, s, o, rest, b);
    InPairUp(l.memory.id, s.asked, a.memory.id, b.memory.id);
    PrecedesCons(l, xs[1..], a, b);
    SourcesLater(rule, xs, s, o, rest, a);
    forall c ensures Precedes(xs, c, a) && (c.memory.id, b.memory.id) in ActionPairs(o.actions) <==>
                     Precedes(s.kept, c, a) && (c.memory.id, b.memory.id) in ActionPairs(rest.actions) {
      TakenLater(rule, xs, s, o, rest, a, b, c);
    }
  }

  lemma SourcesLater(rule: Rule, xs: seq<Candidate>, s: LlmScan, o: LlmOutcome, rest: LlmOutcome, a: Candidate)
    requires SplitsAt(rule, xs, s, o, rest) && a in s.kept
    ensures a.memory.id in SourceIds(ActionPairs(o.actions)) <==> a.memory.id in SourceIds(ActionPairs(rest.actions))
  {
    hide Ids, Compare, DistinctIds, ActionPairs, PairUp, SourceIds;
    assert a in xs;
    SplitIds(rule, xs, s, o, rest, a);
    InSources(ActionPairs(o.actions), a.memory.id);
    InSources(ActionPairs(rest.actions), a.memory.id);
    forall p | p in PairUp(xs[0].memory.id, Ids(s.sources)) ensures p.1 != a.memory.id {
      InPairUp(xs[0].memory.id, Ids(s.sources), p.0, p.1);
      assert p == (p.0, p.1);
    }
  }

  lemma TakenLater(rule: Rule, xs: seq<Candidate>, s: LlmScan, o: LlmOutcome, rest: LlmOutcome, a: Candidate, b: Candidate, c: Candidate)
    requires SplitsAt(rule, xs, s, o, rest) && a in s.kept && b in s.kept && a in xs && b in xs
    requires forall x, y :: x in s.kept && y in s.kept ==> (Precedes(s.kept, x, y) <==> Precedes(xs[1..], x, y))
    ensures Precedes(xs, c, a) && (c.memory.id, b.memory.id) in ActionPairs(o.actions) <==>
            Precedes(s.kept, c, a) && (c.memory.id, b.memory.id) in ActionPairs(rest.actions)
  {
    hide Ids, Compare, DistinctIds, ActionPairs, SourceIds, PairUp, Precedes;
    var l := xs[0];
    assert xs == [l] + xs[1..];
    SplitIds(rule, xs, s, o, rest, a);
    SplitIds(rule, xs, s, o, rest, b);
    InPairUp(l.memory.id, Ids(s.sources), c.memory.id, b.memory.id);
    PrecedesCons(l, xs[1..], c, a);
    PrecedesMembers(xs[1..], c, a);
    PrecedesMembers(s.kept, c, a);
    if c in xs {
      SplitIds(rule, xs, s, o, rest, c);
    }
  }

  /** The exact questions of an unlimited run. */
  lemma {:induction false} AskedExactly(text: Text.Rules, rule: Rule, tape: Tape, xs: seq<Candidate>, processed: nat, a: Candidate, b: Candidate)
    requires DistinctIds(xs) && a in xs && b in xs && RunLlm(text, rule, None, tape, xs, processed).Ok?
    ensures AskedWhen(rule, xs, RunLlm(text, rule, None, tape, xs, processed).value, a, b)
    decreases |xs|
  {
    hide RunLlm, AskedWhen, SplitsAt, Sorts, Precedes, DistinctIds;
    var o := RunLlm(text, rule, None, tape, xs, processed).value;
    var s, rest := RunSplits(text, rule, tape, xs, processed);
    if a == xs[0] {
      AskedInFirst(rule, xs, s, o, rest, b);
    } else if b == xs[0] {
      AskedOfFirst(rule, xs, s, o, rest, a);
    } else {
      KeptOrTaken(rule, xs, s, o, rest, a);
      KeptOrTaken(rule, xs, s, o, rest, b);
      if a in s.sources || b in s.sources {
        AskedOfTaken(rule, xs, s, o, rest, a, b);
      } else {
        AskedExactly(text, rule, tape, s.kept, s.processed, a, b);
        AskedLater(rule, xs, s, o, rest, a, b);
      }
    }
  }

  lemma KeptOrTaken(rule: Rule, xs: seq<Candidate>, s: LlmScan, o: LlmOutcome, rest: LlmOutcome, a: Candidate)
    requires SplitsAt(rule, xs, s, o, rest) && a in xs && a != xs[0]
    ensures (a in s.kept || a in s.sources) && DistinctIds(s.kept)
  {
    SplitIds(rule, xs, s, o, rest, a);
  }

  // ----- the order of the questions

  /** Survivor by survivor, and for each of them candidate by candidate, in the visiting order. */
  ghost predicate InOrder(xs: seq<Candidate>, asked: seq<Pair>) {
    forall p, q :: 0 <= p < q < |asked| ==>
      || Ahead(xs, asked[p].0, asked[q].0)
      || (asked[p].0 == asked[q].0 && Ahead(xs, asked[p].1, asked[q].1))
  }

  lemma AheadCons(c: Candidate, xs: seq<Candidate>, x: MemoryId, y: MemoryId)
    ensures Ahead([c] + xs, x, y) <==> (x == c.memory.id && y in Ids(xs)) || Ahead(xs, x, y)
  {
    hide Ids;
    var all := [c] + xs;
    IdsMember(xs, y);
    if Ahead(all, x, y) {
      var i, j :| 0 <= i < j < |all| && all[i].memory.id == x && all[j].memory.id == y;
      assert all[j] == xs[j - 1];
      if i > 0 {
        assert all[i] == xs[i - 1];
      }
    }
    if x == c.memory.id && y in Ids(xs) {
      var d :| d in xs && d.memory.id == y;
      var j :| 0 <= j < |xs| && xs[j] == d;
      assert all[0].memory.id == x && all[j + 1].memory.id == y;
    }
    if Ahead(xs, x, y) {
      var i, j :| 0 <= i < j < |xs| && xs[i].memory.id == x && xs[j].memory.id == y;
      assert all[i + 1].memory.id == x && all[j + 1].memory.id == y;
    }
  }

  /** A scan asks, and keeps, in the order of the others. */
  ghost predicate Orderly(others: seq<Candidate>, s: LlmScan) {
    && (forall p, q :: 0 <= p < q < |s.asked| ==> Ahead(others, s.asked[p], s.asked[q]))
    && (forall x, y :: Ahead(s.kept, x, y) ==> Ahead(others, x, y))
    && (forall id :: id in s.asked || id in Ids(s.kept) ==> id in Ids(others))
  }

  lemma OrderlyStart(others: seq<Candidate>, content: string, processed: nat)
    ensures Orderly(others, LlmScan([], others, [], [], content, processed, true))
    ensures Orderly([], LlmScan([], [], [], [], content, processed, false))
  {
  }

  lemma OrderlyStep(l: Candidate, c: Candidate, rest: seq<Candidate>, description: string, r: LlmScanResult)
    requires r.Ok? && Orderly(rest, r.value)
    ensures Orderly([c] + rest, PassOver(c, r).value)
    ensures Orderly([c] + rest, TakeIn(c, r).value)
    ensures Orderly([c] + rest, Oppose(l, c, description, r).value)
  {
    hide Ids, Ahead;
    var s := r.value;
    IdsCons(c, rest);
    IdsCons(c, s.kept);
    forall x, y ensures Ahead([c] + rest, x, y) <==> (x == c.memory.id && y in Ids(rest)) || Ahead(rest, x, y) {
      AheadCons(c, rest, x, y);
    }
    forall x, y ensures Ahead([c] + s.kept, x, y) <==> (x == c.memory.id && y in Ids(s.kept)) || Ahead(s.kept, x, y) {
      AheadCons(c, s.kept, x, y);
    }
    var asked := [c.memory.id] + s.asked;
    forall p, q | 0 <= p < q < |asked| ensures Ahead([c] + rest, asked[p], asked[q]) {
      assert asked[q] == s.asked[q - 1];
      if p > 0 {
        assert asked[p] == s.asked[p - 1];
      }
    }
  }

  lemma {:induction false} ScanIsOrderly(text: Text.Rules, rule: Rule, limit: Option<nat>, tape: Tape, l: Candidate,
                                         others: seq<Candidate>, content: string, processed: nat)
    ensures var r := ScanLlm(text, rule, limit, tape, l, others, content, processed); r.Ok? ==> Orderly(others, r.value)
    decreases |others|
  {
    hide Compare, MergedContent, Orderly;
    OrderlyStart(others, content, processed);
    if others != [] {
      var c, rest := others[0], others[1..];
      assert others == [c] + rest;
      var asking := Compare(rule, l, c) == Ok(true);
      var merged := if !asking || tape(processed).Contradict? then content else MergedContent(text, rule, tape(processed), l, c, content);
      var next := if asking then processed + 1 else processed;
      ScanIsOrderly(text, rule, limit, tape, l, rest, merged, next);
      var r := ScanLlm(text, rule, limit, tape, l, rest, merged, next);
      TrueOrFalse(Compare(rule, l, c));
      if r.Ok? {
        OrderlyStep(l, c, rest, if tape(processed).Contradict? then tape(processed).description else "", r);
      }
    }
  }

  lemma OrderTogether(xs: seq<Candidate>, s: LlmScan, rest: seq<Pair>)
    requires xs != [] && Orderly(xs[1..], s) && InOrder(s.kept, rest) && Within(rest, Ids(s.kept))
    ensures InOrder(xs, PairUp(xs[0].memory.id, s.asked) + rest)
  {
    hide Ids, Ahead;
    assert xs == [xs[0]] + xs[1..];
    forall x, y ensures Ahead(xs, x, y) <==> (x == xs[0].memory.id && y in Ids(xs[1..])) || Ahead(xs[1..], x, y) {
      AheadCons(xs[0], xs[1..], x, y);
    }
    var mine := PairUp(xs[0].memory.id, s.asked);
    var all := mine + rest;
    forall p, q | 0 <= p < q < |all|
      ensures Ahead(xs, all[p].0, all[q].0) || (all[p].0 == all[q].0 && Ahead(xs, all[p].1, all[q].1))
    {
      if p >= |mine| {
        assert all[p] == rest[p - |mine|] && all[q] == rest[q - |mine|];
      } else if q >= |mine| {
        assert all[q] == rest[q - |mine|] && all[q] in rest;
      }
    }
  }

  /** The questions of every run come in the visiting order. */
  lemma {:induction false} QuestionsAreInOrder(text: Text.Rules, rule: Rule, limit: Option<nat>, tape: Tape, xs: seq<Candidate>, processed: nat)
    requires DistinctIds(xs)
    ensures var r := RunLlm(text, rule, limit, tape, xs, processed); r.Ok? ==> InOrder(xs, r.value.asked)
    decreases |xs|
  {
    hide ScanLlm, LlmActions, Orderly, InOrder, Within, Separated, DistinctIds, Ids;
    NothingInOrder(xs);
    if xs != [] {
      var l := xs[0];
      DistinctIdsTail(rule, xs);
      ScanIsOrderly(text, rule, limit, tape, l, xs[1..], l.memory.content, processed);
      ScanSeparates(text, rule, limit, tape, l, xs[1..], l.memory.content, processed);
      var r := ScanLlm(text, rule, limit, tape, l, xs[1..], l.memory.content, processed);
      if r.Ok? {
        var s := r.value;
        SeparatedMembers(xs, s);
        NothingInOrder(s.kept);
        NothingAsked(Ids(s.kept));
        var rest := if s.limitReached then Ok(LlmOutcome([], [])) else RunLlm(text, rule, limit, tape, s.kept, s.processed);
        if !s.limitReached {
          QuestionsAreInOrder(text, rule, limit, tape, s.kept, s.processed);
          NoPairIsAskedTwice(text, rule, limit, tape, s.kept, s.processed);
        }
        if rest.Ok? {
          OrderTogether(xs, s, rest.value.asked);
          assert PairUp(l.memory.id, s.asked) + [] == PairUp(l.memory.id, s.asked);
        }
      }
    }
  }

  lemma NothingInOrder(xs: seq<Candidate>)
    ensures InOrder(xs, [])
  {
  }

  // ----- a limit cuts the questions

  /** The scan under a limit: the same while the budget lasts, otherwise its first questions. */
  ghost predicate CutScan(limit: nat, processed: nat, whole: LlmScan, r: LlmScanResult)
    requires processed <= limit
  {
    && r.Ok?
    && if |whole.asked| <= limit - processed then r.value == whole
       else r.value.limitReached && r.value.asked == whole.asked[..limit - processed]
  }

  lemma CutStep(limit: nat, processed: nat, l: Candidate, c: Candidate, description: string, whole: LlmScanResult, r: LlmScanResult)
    requires whole.Ok?
    ensures processed <= limit && CutScan(limit, processed, whole.value, r) ==>
      CutScan(limit, processed, PassOver(c, whole).value, PassOver(c, r))
    ensures processed < limit && CutScan(limit, processed + 1, whole.value, r) ==>
      && CutScan(limit, processed, TakeIn(c, whole).value, TakeIn(c, r))
      && CutScan(limit, processed, Oppose(l, c, description, whole).value, Oppose(l, c, description, r))
  {
  }

  lemma {:induction false} ScanIsCut(text: Text.Rules, rule: Rule, limit: nat, tape: Tape, l: Candidate, others: seq<Candidate>,
                                     content: string, processed: nat)
    requires processed <= limit && ScanLlm(text, rule, None, tape, l, others, content, processed).Ok?
    ensures CutScan(limit, processed, ScanLlm(text, rule, None, tape, l, others, content, processed).value,
                    ScanLlm(text, rule, Some(limit), tape, l, others, content, processed))
    decreases |others|
  {
    hide Compare, MergedContent;
    if others != [] {
      var c, rest := others[0], others[1..];
      var asking := Compare(rule, l, c) == Ok(true);
      var merged := if !asking || tape(processed).Contradict? then content else MergedContent(text, rule, tape(processed), l, c, content);
      var next := if asking then processed + 1 else processed;
      TrueOrFalse(Compare(rule, l, c));
      if next <= limit {
        ScanIsCut(text, rule, limit, tape, l, rest, merged, next);
        CutStep(limit, processed, l, c, if tape(processed).Contradict? then tape(processed).description else "",
          ScanLlm(text, rule, None, tape, l, rest, merged, next), ScanLlm(text, rule, Some(limit), tape, l, rest, merged, next));
      }
    }
  }

  /** A pair limit cuts the list of questions, nothing else. */
  lemma {:induction false} LimitCutsQuestions(text: Text.Rules, rule: Rule, limit: nat, tape: Tape, xs: seq<Candidate>, processed: nat)
    requires DistinctIds(xs) && processed <= limit && RunLlm(text, rule, None, tape, xs, processed).Ok?
    ensures var whole, r := RunLlm(text, rule, None, tape, xs, processed).value, RunLlm(text, rule, Some(limit), tape, xs, processed);
      && r.Ok? && r.value.asked == Take(limit - processed, whole.asked)
      && (|whole.asked| <= limit - processed ==> r.value == whole)
    decreases |xs|
  {
    hide ScanLlm, LlmActions, PairUp, Sorts, DistinctIds, ScanAnswered;
    if xs != [] {
      var l := xs[0];
      DistinctIdsTail(rule, xs);
      var s := ScanLlm(text, rule, None, tape, l, xs[1..], l.memory.content, processed).value;
      ScanSorts(text, rule, tape, l, xs[1..], l.memory.content, processed);
      SortedIsUnlimited(rule, l, xs[1..], s);
      ScanIsCut(text, rule, limit, tape, l, xs[1..], l.memory.content, processed);
      ScanCounts(text, rule, None, tape, l, xs[1..], l.memory.content, processed);
      PairsOfIds(l.memory.id, s.asked, limit - processed);
      if |s.asked| <= limit - processed {
        LimitCutsQuestions(text, rule, limit, tape, s.kept, s.processed);
      }
    }
  }

  lemma ScanCounts(text: Text.Rules, rule: Rule, limit: Option<nat>, tape: Tape, l: Candidate, others: seq<Candidate>,
                   content: string, processed: nat)
    ensures var r := ScanLlm(text, rule, limit, tape, l, others, content, processed);
      r.Ok? ==> r.value.processed == processed + |r.value.asked|
  {
    hide ScanLlm;
    ScanAccounted(text, rule, limit, tape, l, others, content, processed);
  }

  lemma PairsOfIds(id: MemoryId, ids: seq<MemoryId>, n: nat)
    ensures |PairUp(id, ids)| == |ids| && (n <= |ids| ==> PairUp(id, ids[..n]) == PairUp(id, ids)[..n])
  {
  }
}
