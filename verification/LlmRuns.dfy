/**
 * Whole-run guarantees of the LLM strategy: no repeated question, no consumed witness, and what the fallback writes
 * (plugins/memory/src/consolidator.rs, LlmConsolidator::consolidate and simple_merge_content).
 */
module LlmRuns {
  import opened Wrappers
  import opened Candidates
  import opened SimpleStrategy
  import opened Clusters
  import opened ClusterFacts
  import opened LlmStrategy
  import opened LlmFacts
  import Text

  // ----- what one survivor leaves behind

  /** The kept candidates are distinct, apart from the sources, and nothing is asked about twice. */
  ghost predicate Separated(others: seq<Candidate>, s: LlmScan) {
    && DistinctIds(s.kept)
    && (forall x :: x in s.kept ==> x in others)
    && (forall x :: x in s.sources ==> x in others)
    && (forall a, b :: a in s.kept && b in s.sources ==> a.memory.id != b.memory.id)
    && Distinct(s.asked)
    && (forall id :: id in s.asked ==> id in Ids(others))
  }

  lemma SeparatedStep(c: Candidate, rest: seq<Candidate>, s: LlmScan, action: Action)
    requires DistinctIds([c] + rest) && Separated(rest, s)
    ensures Separated([c] + rest, s.(kept := [c] + s.kept))
    ensures Separated([c] + rest, s.(sources := [c] + s.sources, asked := [c.memory.id] + s.asked))
    ensures Separated([c] + rest, s.(kept := [c] + s.kept, asked := [c.memory.id] + s.asked,
                                     contradictions := [action] + s.contradictions))
  {
    var all := [c] + rest;
    IdsCons(c, rest);
    forall x | x in rest ensures x.memory.id != c.memory.id {
      var i :| 0 <= i < |rest| && rest[i] == x;
      assert all[0] == c && all[i + 1] == x;
    }
    forall id | id in s.asked ensures id != c.memory.id {
      IdsMember(rest, id);
    }
    DistinctCons(c.memory.id, s.asked);
    KeepDistinct(c, s.kept);
  }

  lemma KeepDistinct(c: Candidate, kept: seq<Candidate>)
    requires DistinctIds(kept) && forall x :: x in kept ==> x.memory.id != c.memory.id
    ensures DistinctIds([c] + kept)
  {
  }

  lemma {:induction false} ScanSeparates(text: Text.Rules, rule: Rule, limit: Option<nat>, tape: Tape, l: Candidate,
                                         others: seq<Candidate>, content: string, processed: nat)
    requires DistinctIds(others)
    ensures var r := ScanLlm(text, rule, limit, tape, l, others, content, processed);
      r.Ok? ==> Separated(others, r.value)
    decreases |others|
  {
    hide MergedContent, Separated, Compare, Ids;
    SeparatedStart(others, content, processed);
    if others != [] {
      var c, rest := others[0], others[1..];
      assert others == [c] + rest;
      var next := MergedContent(text, rule, tape(processed), l, c, content);
      ScanSeparates(text, rule, limit, tape, l, rest, content, processed);
      ScanSeparates(text, rule, limit, tape, l, rest, content, processed + 1);
      ScanSeparates(text, rule, limit, tape, l, rest, next, processed + 1);
      var skip := ScanLlm(text, rule, limit, tape, l, rest, content, processed);
      var oppose := ScanLlm(text, rule, limit, tape, l, rest, content, processed + 1);
      var take := ScanLlm(text, rule, limit, tape, l, rest, next, processed + 1);
      var d := if tape(processed).Contradict? then tape(processed).description else "";
      var action := Contradiction(l.memory.id, c.memory.id, d);
      if skip.Ok? { SeparatedStep(c, rest, skip.value, action); }
      if oppose.Ok? { SeparatedStep(c, rest, oppose.value, action); }
      if take.Ok? { SeparatedStep(c, rest, take.value, action); }
    }
  }

  lemma SeparatedStart(others: seq<Candidate>, content: string, processed: nat)
    requires DistinctIds(others)
    ensures Separated(others, LlmScan([], others, [], [], content, processed, true))
    ensures others == [] ==> Separated(others, LlmScan([], [], [], [], content, processed, false))
  {
  }

  // ----- no pair is asked twice

  function Swap(p: Pair): Pair {
    (p.1, p.0)
  }

  /** No two questions are about the same two memories, in either order. */
  ghost predicate NeverAgain(asked: seq<Pair>) {
    forall i, j :: 0 <= i < j < |asked| ==> asked[i] != asked[j] && asked[i] != Swap(asked[j])
  }

  ghost predicate Within(pairs: seq<Pair>, ids: seq<MemoryId>) {
    forall p :: p in pairs ==> p.0 in ids && p.1 in ids
  }

  lemma NeverAgainAppend(id: MemoryId, asked: seq<MemoryId>, rest: seq<Pair>, ids: seq<MemoryId>)
    requires Distinct(asked) && id !in asked && NeverAgain(rest) && Within(rest, ids) && id !in ids
    ensures NeverAgain(PairUp(id, asked) + rest)
  {
  }

  /** The questions of a run are about visited memories, each two of them at most once. */
  lemma {:induction false} NoPairIsAskedTwice(text: Text.Rules, rule: Rule, limit: Option<nat>, tape: Tape, xs: seq<Candidate>, processed: nat)
    requires DistinctIds(xs)
    ensures var r := RunLlm(text, rule, limit, tape, xs, processed);
      r.Ok? ==> NeverAgain(r.value.asked) && Within(r.value.asked, Ids(xs))
    decreases |xs|
  {
    hide ScanLlm, LlmActions, PairUp, NeverAgain, Within;
    NothingAsked(Ids(xs));
    if xs != [] {
      var l := xs[0];
      var r := ScanLlm(text, rule, limit, tape, l, xs[1..], l.memory.content, processed);
      if r.Ok? {
        var s := r.value;
        DistinctIdsTail(rule, xs);
        ScanSeparates(text, rule, limit, tape, l, xs[1..], l.memory.content, processed);
        NoPairIsAskedTwice(text, rule, limit, tape, s.kept, s.processed);
        var rest := RunLlm(text, rule, limit, tape, s.kept, s.processed);
        FirstAsked(xs, s, []);
        if rest.Ok? {
          FirstAsked(xs, s, rest.value.asked);
        }
      }
    }
  }

  lemma NothingAsked(ids: seq<MemoryId>)
    ensures NeverAgain([]) && Within([], ids)
  {
  }

  lemma FirstAsked(xs: seq<Candidate>, s: LlmScan, rest: seq<Pair>)
    requires xs != [] && DistinctIds(xs) && Separated(xs[1..], s)
    requires NeverAgain(rest) && Within(rest, Ids(s.kept))
    ensures var asked := PairUp(xs[0].memory.id, s.asked) + rest; NeverAgain(asked) && Within(asked, Ids(xs))
    ensures NeverAgain(PairUp(xs[0].memory.id, s.asked)) && Within(PairUp(xs[0].memory.id, s.asked), Ids(xs))
  {
    var id := xs[0].memory.id;
    assert xs == [xs[0]] + xs[1..];
    IdsCons(xs[0], xs[1..]);
    IdsMember(xs[1..], id);
    IdsMember(s.kept, id);
    NeverAgainAppend(id, s.asked, rest, Ids(s.kept));
    NeverAgainAppend(id, s.asked, [], []);
    assert PairUp(id, s.asked) + [] == PairUp(id, s.asked);
    forall p | p in rest ensures p.0 in Ids(xs) && p.1 in Ids(xs) {
      IdsMember(s.kept, p.0);
      IdsMember(s.kept, p.1);
      IdsMember(xs, p.0);
      IdsMember(xs, p.1);
    }
  }

  // ----- the first memory of a contradiction is never consumed

  ghost predicate WitnessesSurvive(actions: seq<Action>) {
    forall p, q :: p in ContradictionPairs(actions) && q in ActionPairs(actions) ==> p.0 != q.1
  }

  ghost predicate ActsWithin(actions: seq<Action>, ids: seq<MemoryId>) {
    Within(ActionPairs(actions), ids) && Within(ContradictionPairs(actions), ids)
  }

  lemma {:induction false} ContradictionWitnessIsNeverConsumed(
      text: Text.Rules, rule: Rule, limit: Option<nat>, tape: Tape, xs: seq<Candidate>, processed: nat)
    requires DistinctIds(xs)
    ensures var r := RunLlm(text, rule, limit, tape, xs, processed);
      r.Ok? ==> WitnessesSurvive(r.value.actions) && ActsWithin(r.value.actions, Ids(xs))
    decreases |xs|
  {
    hide ScanLlm, LlmActions, PairUp, ActionPairs, ContradictionPairs, WitnessesSurvive, ActsWithin, Accounted;
    NoWitness(Ids(xs));
    if xs != [] {
      var l := xs[0];
      var r := ScanLlm(text, rule, limit, tape, l, xs[1..], l.memory.content, processed);
      if r.Ok? {
        var s := r.value;
        DistinctIdsTail(rule, xs);
        ScanSeparates(text, rule, limit, tape, l, xs[1..], l.memory.content, processed);
        ScanAccounted(text, rule, limit, tape, l, xs[1..], l.memory.content, processed);
        ContradictionWitnessIsNeverConsumed(text, rule, limit, tape, s.kept, s.processed);
        var rest := RunLlm(text, rule, limit, tape, s.kept, s.processed);
        NoWitness(Ids(s.kept));
        FirstWitness(rule, xs, processed, s, []);
        assert LlmActions(rule, l, s) + [] == LlmActions(rule, l, s);
        if rest.Ok? {
          FirstWitness(rule, xs, processed, s, rest.value.actions);
        }
      }
    }
  }

  lemma NoWitness(ids: seq<MemoryId>)
    ensures WitnessesSurvive([]) && ActsWithin([], ids)
  {
  }

  lemma {:induction false} ContradictionsOf(l: Candidate, actions: seq<Action>)
    requires forall a :: a in actions ==> a.Contradiction? && a.memoryA == l.memory.id
    ensures forall p :: p in ContradictionPairs(actions) ==> p.0 == l.memory.id
  {
    if actions != [] {
      assert actions[0] in actions;
      ContradictionsOf(l, actions[1..]);
    }
  }

  lemma FirstContradictions(l: Candidate, others: seq<Candidate>, processed: nat, s: LlmScan)
    requires Accounted(l, others, processed, s)
    ensures forall p :: p in ContradictionPairs(s.contradictions) ==> p.0 == l.memory.id
  {
    ContradictionsOf(l, s.contradictions);
  }

  lemma AskedSecond(l: Candidate, others: seq<Candidate>, processed: nat, s: LlmScan, p: Pair)
    requires Accounted(l, others, processed, s) && p in ContradictionPairs(s.contradictions)
    ensures p.1 in Ids(others)
  {
    assert p in multiset(ContradictionPairs(s.contradictions));
    assert p in multiset(PairUp(l.memory.id, s.asked));
    var k :| 0 <= k < |s.asked| && PairUp(l.memory.id, s.asked)[k] == p;
    assert s.asked[k] in s.asked;
  }

  lemma FirstWitness(rule: Rule, xs: seq<Candidate>, processed: nat, s: LlmScan, rest: seq<Action>)
    requires xs != [] && DistinctIds(xs) && Separated(xs[1..], s) && Accounted(xs[0], xs[1..], processed, s)
    requires WitnessesSurvive(rest) && ActsWithin(rest, Ids(s.kept))
    ensures var actions := LlmActions(rule, xs[0], s) + rest; WitnessesSurvive(actions) && ActsWithin(actions, Ids(xs))
  {
    hide LlmActions, ActionPairs, ContradictionPairs, Ids, Accounted, Distinct;
    var l, first := xs[0], LlmActions(rule, xs[0], s);
    assert xs == [l] + xs[1..];
    IdsCons(l, xs[1..]);
    FirstOutcome(rule, l, xs[1..], processed, s);
    ActionPairsAppend(first, rest);
    ContradictionPairsAppend(first, rest);
    FirstContradictions(l, xs[1..], processed, s);
    forall p | p in ContradictionPairs(first) ensures p.0 == l.memory.id && p.1 in Ids(xs) {
      AskedSecond(l, xs[1..], processed, s, p);
    }
    forall q | q in ActionPairs(first) ensures q.0 == l.memory.id && q.1 in Ids(s.sources) && q.1 in Ids(xs[1..]) {
      IdsMember(s.sources, q.1);
      IdsMember(xs[1..], q.1);
    }
    forall id | id in Ids(s.kept) ensures id in Ids(xs[1..]) && id !in Ids(s.sources) {
      IdsMember(s.kept, id);
      IdsMember(xs[1..], id);
      IdsMember(s.sources, id);
    }
    IdsMember(xs[1..], l.memory.id);
  }

  // ----- what the fallback writes

  ghost predicate AlwaysUnusable(tape: Tape) {
    forall n :: tape(n).Unusable?
  }

  /** With nothing merged the content is untouched; otherwise it is the start's or a source's, trimmed. */
  ghost predicate FallbackContent(text: Text.Rules, content: string, s: LlmScan) {
    if s.sources == [] then s.content == content
    else s.content == Text.Trim(text, content) || exists c :: c in s.sources && s.content == Text.Trim(text, c.memory.content)
  }

  lemma {:induction false} ScanFallsBack(text: Text.Rules, rule: Rule, limit: Option<nat>, tape: Tape, l: Candidate,
                                         others: seq<Candidate>, content: string, processed: nat)
    requires AlwaysUnusable(tape)
    ensures var r := ScanLlm(text, rule, limit, tape, l, others, content, processed);
      r.Ok? ==> FallbackContent(text, content, r.value)
    decreases |others|
  {
    hide SimpleMergeContent, Text.Trim;
    if others != [] {
      var c, rest := others[0], others[1..];
      var near := rule.nearIdentical(Vector(l), Vector(c));
      var next := SimpleMergeContent(text, content, c.memory.content, near);
      ScanFallsBack(text, rule, limit, tape, l, rest, content, processed);
      ScanFallsBack(text, rule, limit, tape, l, rest, next, processed + 1);
      MergeKeepsOne(text, content, c.memory.content, near);
      Text.TrimIdempotent(text, content);
      Text.TrimIdempotent(text, c.memory.content);
      var take := ScanLlm(text, rule, limit, tape, l, rest, next, processed + 1);
      if take.Ok? {
        assert c in [c] + take.value.sources;
        assert forall x :: x in take.value.sources ==> x in [c] + take.value.sources;
      }
    }
  }

  /** The content of every merge is the trimmed content of a member of its group. */
  ghost predicate WritesMembers(text: Text.Rules, xs: seq<Candidate>, actions: seq<Action>) {
    forall a :: a in actions && a.Merged? ==>
      exists c :: c in xs && (c.memory.id == a.result.id || c.memory.id in a.sourceIds)
                  && a.result.content == Text.Trim(text, c.memory.content)
  }

  /** With a provider that always fails, every merged content is some group member's, trimmed. */
  lemma {:induction false} FailingProviderWritesMembers(
      text: Text.Rules, rule: Rule, limit: Option<nat>, tape: Tape, xs: seq<Candidate>, processed: nat)
    requires AlwaysUnusable(tape)
    ensures var r := RunLlm(text, rule, limit, tape, xs, processed); r.Ok? ==> WritesMembers(text, xs, r.value.actions)
    decreases |xs|
  {
    hide ScanLlm, LlmActions, PairUp, WritesMembers, FallbackContent, Accounted;
    WritesNothing(text, xs);
    if xs != [] {
      var l := xs[0];
      var r := ScanLlm(text, rule, limit, tape, l, xs[1..], l.memory.content, processed);
      if r.Ok? {
        var s := r.value;
        ScanFallsBack(text, rule, limit, tape, l, xs[1..], l.memory.content, processed);
        ScanAccounted(text, rule, limit, tape, l, xs[1..], l.memory.content, processed);
        FailingProviderWritesMembers(text, rule, limit, tape, s.kept, s.processed);
        var rest := RunLlm(text, rule, limit, tape, s.kept, s.processed);
        WritesNothing(text, s.kept);
        FirstWrites(text, rule, xs, processed, s, []);
        assert LlmActions(rule, l, s) + [] == LlmActions(rule, l, s);
        if rest.Ok? {
          FirstWrites(text, rule, xs, processed, s, rest.value.actions);
        }
      }
    }
  }

  lemma WritesNothing(text: Text.Rules, xs: seq<Candidate>)
    ensures WritesMembers(text, xs, [])
  {
  }

  lemma FirstWrites(text: Text.Rules, rule: Rule, xs: seq<Candidate>, processed: nat, s: LlmScan, rest: seq<Action>)
    requires xs != [] && FallbackContent(text, xs[0].memory.content, s) && Accounted(xs[0], xs[1..], processed, s)
    requires WritesMembers(text, s.kept, rest)
    ensures WritesMembers(text, xs, LlmActions(rule, xs[0], s) + rest)
  {
    hide Text.Trim, HighestScope;
    var l, first := xs[0], LlmActions(rule, xs[0], s);
    forall a | a in first + rest && a.Merged?
      ensures exists c :: c in xs && (c.memory.id == a.result.id || c.memory.id in a.sourceIds)
                          && a.result.content == Text.Trim(text, c.memory.content)
    {
      if a in rest {
        var c :| c in s.kept && (c.memory.id == a.result.id || c.memory.id in a.sourceIds)
                 && a.result.content == Text.Trim(text, c.memory.content);
        assert c in xs[1..] && c in xs;
      } else {
        assert a in first && a !in s.contradictions;
        assert s.sources != [] && a.result.content == s.content && a.sourceIds == Ids(s.sources) && a.result.id == l.memory.id;
        if s.content != Text.Trim(text, l.memory.content) {
          var c :| c in s.sources && s.content == Text.Trim(text, c.memory.content);
          IdsMember(s.sources, c.memory.id);
          assert c in xs[1..] && c in xs;
        } else {
          assert l in xs;
        }
      }
    }
  }
}
