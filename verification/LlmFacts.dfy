/**
 * What holds of every run of the LLM strategy, whatever the provider answers
 * (plugins/memory/src/consolidator.rs, LlmConsolidator::consolidate).
 */
module LlmFacts {
  import opened Wrappers
  import opened Scopes
  import opened Candidates
  import opened SimpleStrategy
  import opened Clusters
  import opened LlmStrategy
  import Text

  // ----- without contradictions the LLM strategy forms the simple strategy's groups

  /** A group: the survivor, its sources, and the scope of the result. */
  datatype Group = Group(survivor: MemoryId, sources: seq<MemoryId>, scope: MemoryScope)

  function Groups(actions: seq<Action>): seq<Group> {
    if actions == [] then []
    else match actions[0]
      case Merged(ids, result) => [Group(result.id, ids, result.scope)] + Groups(actions[1..])
      case Contradiction(_, _, _) => Groups(actions[1..])
  }

  lemma {:induction false} GroupsAppend(a: seq<Action>, b: seq<Action>)
    ensures Groups(a + b) == Groups(a) + Groups(b)
  {
    if a == [] {
      assert a + b == b;
    } else {
      assert (a + b)[1..] == a[1..] + b;
      GroupsAppend(a[1..], b);
    }
  }

  /** Forgetting what only the LLM strategy records. */
  function Forget(r: LlmScanResult): ScanResult {
    match r
    case Err(e) => Err(e)
    case Ok(s) => Ok(Scan(s.sources, s.kept, s.processed, s.limitReached))
  }

  ghost predicate NeverContradicts(tape: Tape) {
    forall n :: !tape(n).Contradict?
  }

  lemma {:induction false} ScanRefines(text: Text.Rules, rule: Rule, limit: Option<nat>, tape: Tape, l: Candidate,
                                       others: seq<Candidate>, content: string, processed: nat)
    requires NeverContradicts(tape)
    ensures var r := ScanLlm(text, rule, limit, tape, l, others, content, processed);
      && Forget(r) == ScanSimple(rule, limit, l, others, processed)
      && (r.Ok? ==> r.value.contradictions == [] && r.value.asked == Ids(r.value.sources))
    decreases |others|
  {
    hide MergedContent, Ids;
    NothingTaken(Session);
    if others != [] {
      var c, rest := others[0], others[1..];
      var next := MergedContent(text, rule, tape(processed), l, c, content);
      ScanRefines(text, rule, limit, tape, l, rest, content, processed);
      ScanRefines(text, rule, limit, tape, l, rest, next, processed + 1);
      var r := ScanLlm(text, rule, limit, tape, l, rest, next, processed + 1);
      if r.Ok? {
        IdsCons(c, r.value.sources);
      }
    }
  }

  lemma ActionsGroup(rule: Rule, l: Candidate, scan: LlmScan)
    requires scan.contradictions == []
    ensures Groups(LlmActions(rule, l, scan)) == Groups(SimpleAction(rule, l, scan.sources))
    ensures forall a :: a in LlmActions(rule, l, scan) ==> a.Merged?
  {
  }

  /** Same failures, same groups, same scopes, and the pairs asked about are the pairs merged. */
  ghost predicate Refines(llm: LlmRunResult, simple: RunResult) {
    match llm
    case Err(e) => simple == Err(e)
    case Ok(outcome) =>
      && simple.Ok?
      && Groups(outcome.actions) == Groups(simple.value)
      && (forall a :: a in outcome.actions ==> a.Merged?)
      && outcome.asked == ActionPairs(simple.value)
  }

  /** If no verdict is a contradiction, the LLM strategy refines the simple one, with any limit and from any start. */
  lemma {:induction false} LlmRefinesSimple(text: Text.Rules, rule: Rule, limit: Option<nat>, tape: Tape, xs: seq<Candidate>, processed: nat)
    requires NeverContradicts(tape)
    ensures Refines(RunLlm(text, rule, limit, tape, xs, processed), RunSimple(rule, limit, xs, processed))
    decreases |xs|
  {
    hide ScanLlm, ScanSimple, LlmActions, SimpleAction, PairUp, Groups, ActionPairs;
    NoGroups();
    if xs != [] {
      var l := xs[0];
      ScanRefines(text, rule, limit, tape, l, xs[1..], l.memory.content, processed);
      var r := ScanLlm(text, rule, limit, tape, l, xs[1..], l.memory.content, processed);
      if r.Ok? {
        var first, plain := LlmActions(rule, l, r.value), SimpleAction(rule, l, r.value.sources);
        ActionsGroup(rule, l, r.value);
        SimpleActionPairs(rule, l, r.value.sources);
        if !r.value.limitReached {
          LlmRefinesSimple(text, rule, limit, tape, r.value.kept, r.value.processed);
          var rest := RunLlm(text, rule, limit, tape, r.value.kept, r.value.processed);
          var others := RunSimple(rule, limit, r.value.kept, r.value.processed);
          if rest.Ok? {
            GroupsAppend(first, rest.value.actions);
            GroupsAppend(plain, others.value);
            ActionPairsAppend(plain, others.value);
          }
        }
      }
    }
  }

  lemma NoGroups()
    ensures Groups([]) == [] && ActionPairs([]) == []
  {
  }

  // ----- every pair asked about has one outcome, and none is asked twice

  /** The pairs of the contradictions among some actions. */
  function ContradictionPairs(actions: seq<Action>): seq<Pair> {
    if actions == [] then []
    else match actions[0]
      case Contradiction(a, b, _) => [(a, b)] + ContradictionPairs(actions[1..])
      case Merged(_, _) => ContradictionPairs(actions[1..])
  }

  lemma {:induction false} ContradictionPairsAppend(a: seq<Action>, b: seq<Action>)
    ensures ContradictionPairs(a + b) == ContradictionPairs(a) + ContradictionPairs(b)
  {
    if a == [] {
      assert a + b == b;
    } else {
      assert (a + b)[1..] == a[1..] + b;
      ContradictionPairsAppend(a[1..], b);
    }
  }

  /** What a scan's record says: the ids asked about split into the sources and the contradictions of l. */
  ghost predicate Accounted(l: Candidate, others: seq<Candidate>, processed: nat, s: LlmScan) {
    && s.processed == processed + |s.asked|
    && ActionPairs(s.contradictions) == []
    && multiset(PairUp(l.memory.id, s.asked)) ==
         multiset(PairUp(l.memory.id, Ids(s.sources))) + multiset(ContradictionPairs(s.contradictions))
    && (forall a :: a in s.contradictions ==> a.Contradiction? && a.memoryA == l.memory.id)
    && (forall x :: x in s.kept ==> x in others)
    && (forall x :: x in s.sources ==> x in others)
    && (forall id :: id in s.asked ==> id in Ids(others))
  }

  lemma PairUpCons(id: MemoryId, x: MemoryId, xs: seq<MemoryId>)
    ensures PairUp(id, [x] + xs) == [(id, x)] + PairUp(id, xs)
  {
  }

  lemma {:induction false} ScanAccounted(text: Text.Rules, rule: Rule, limit: Option<nat>, tape: Tape, l: Candidate,
                                         others: seq<Candidate>, content: string, processed: nat)
    ensures var r := ScanLlm(text, rule, limit, tape, l, others, content, processed);
      r.Ok? ==> Accounted(l, others, processed, r.value)
    decreases |others|
  {
    hide MergedContent, Accounted;
    if others == [] {
      AccountedEmpty(l, [], processed, LlmScan([], [], [], [], content, processed, false));
    } else {
      var c, rest := others[0], others[1..];
      assert others == [c] + rest;
      AccountedEmpty(l, others, processed, LlmScan([], others, [], [], content, processed, true));
      var next := MergedContent(text, rule, tape(processed), l, c, content);
      ScanAccounted(text, rule, limit, tape, l, rest, content, processed);
      ScanAccounted(text, rule, limit, tape, l, rest, content, processed + 1);
      ScanAccounted(text, rule, limit, tape, l, rest, next, processed + 1);
      var skip := ScanLlm(text, rule, limit, tape, l, rest, content, processed);
      var oppose := ScanLlm(text, rule, limit, tape, l, rest, content, processed + 1);
      var take := ScanLlm(text, rule, limit, tape, l, rest, next, processed + 1);
      if skip.Ok? { AccountedPassOver(l, c, rest, processed, skip.value); }
      if oppose.Ok? && tape(processed).Contradict? {
        AccountedOppose(l, c, rest, processed, oppose.value, tape(processed).description);
      }
      if take.Ok? { AccountedTakeIn(l, c, rest, processed, take.value); }
    }
  }

  lemma AccountedEmpty(l: Candidate, others: seq<Candidate>, processed: nat, s: LlmScan)
    requires s.sources == [] && s.asked == [] && s.contradictions == [] && s.processed == processed && s.kept == others
    ensures Accounted(l, others, processed, s)
  {
  }

  lemma AccountedPassOver(l: Candidate, c: Candidate, rest: seq<Candidate>, processed: nat, s: LlmScan)
    requires Accounted(l, rest, processed, s)
    ensures Accounted(l, [c] + rest, processed, s.(kept := [c] + s.kept))
  {
    IdsCons(c, rest);
  }

  lemma AccountedTakeIn(l: Candidate, c: Candidate, rest: seq<Candidate>, processed: nat, s: LlmScan)
    requires Accounted(l, rest, processed + 1, s)
    ensures Accounted(l, [c] + rest, processed, s.(sources := [c] + s.sources, asked := [c.memory.id] + s.asked))
  {
    IdsCons(c, rest);
    IdsCons(c, s.sources);
    PairUpCons(l.memory.id, c.memory.id, s.asked);
    PairUpCons(l.memory.id, c.memory.id, Ids(s.sources));
  }

  lemma AccountedOppose(l: Candidate, c: Candidate, rest: seq<Candidate>, processed: nat, s: LlmScan, d: string)
    requires Accounted(l, rest, processed + 1, s)
    ensures var action := Contradiction(l.memory.id, c.memory.id, d);
      Accounted(l, [c] + rest, processed,
        s.(kept := [c] + s.kept, asked := [c.memory.id] + s.asked, contradictions := [action] + s.contradictions))
  {
    IdsCons(c, rest);
    PairUpCons(l.memory.id, c.memory.id, s.asked);
    var all := [Contradiction(l.memory.id, c.memory.id, d)] + s.contradictions;
    assert all[1..] == s.contradictions;
  }

  /** Every pair asked about is merged or reported as a contradiction, and nothing else is. */
  ghost predicate OutcomesMatch(o: LlmOutcome) {
    multiset(o.asked) == multiset(ActionPairs(o.actions)) + multiset(ContradictionPairs(o.actions))
  }

  lemma FirstOutcome(rule: Rule, l: Candidate, others: seq<Candidate>, processed: nat, s: LlmScan)
    requires Accounted(l, others, processed, s)
    ensures OutcomesMatch(LlmOutcome(LlmActions(rule, l, s), PairUp(l.memory.id, s.asked)))
    ensures ActionPairs(LlmActions(rule, l, s)) == PairUp(l.memory.id, Ids(s.sources))
    ensures ContradictionPairs(LlmActions(rule, l, s)) == ContradictionPairs(s.contradictions)
  {
    var actions := LlmActions(rule, l, s);
    if s.sources == [] {
      assert actions == s.contradictions;
    } else {
      var merge := actions[|s.contradictions|..];
      assert actions == s.contradictions + merge && merge[1..] == [];
      ActionPairsAppend(s.contradictions, merge);
      ContradictionPairsAppend(s.contradictions, merge);
      assert ActionPairs(merge) == PairUp(l.memory.id, Ids(s.sources)) + ActionPairs([]);
      assert ContradictionPairs(merge) == [];
    }
  }

  /** Merges and contradictions together are the questions asked, and they never exceed the limit. */
  lemma {:induction false} LlmAccounting(text: Text.Rules, rule: Rule, limit: Option<nat>, tape: Tape, xs: seq<Candidate>, processed: nat)
    requires limit.Some? ==> processed <= limit.value
    ensures var r := RunLlm(text, rule, limit, tape, xs, processed);
      r.Ok? ==>
        && OutcomesMatch(r.value)
        && |ActionPairs(r.value.actions)| + |ContradictionPairs(r.value.actions)| == |r.value.asked|
        && (limit.Some? ==> processed + |r.value.asked| <= limit.value)
    decreases |xs|
  {
    hide ScanLlm, LlmActions, PairUp, ActionPairs, ContradictionPairs, Accounted;
    NoPairs();
    if xs != [] {
      var l := xs[0];
      var r := ScanLlm(text, rule, limit, tape, l, xs[1..], l.memory.content, processed);
      if r.Ok? {
        var s := r.value;
        ScanAccounted(text, rule, limit, tape, l, xs[1..], l.memory.content, processed);
        ScanWithinLimit(text, rule, limit, tape, l, xs[1..], l.memory.content, processed);
        FirstOutcome(rule, l, xs[1..], processed, s);
        var first := LlmOutcome(LlmActions(rule, l, s), PairUp(l.memory.id, s.asked));
        AccountedCount(l, xs[1..], processed, s);
        if !s.limitReached {
          LlmAccounting(text, rule, limit, tape, s.kept, s.processed);
          var rest := RunLlm(text, rule, limit, tape, s.kept, s.processed);
          if rest.Ok? {
            OutcomesAppend(first, rest.value);
          }
        }
        if RunLlm(text, rule, limit, tape, xs, processed).Ok? {
          OutcomesCount(RunLlm(text, rule, limit, tape, xs, processed).value);
        }
      }
    }
  }

  lemma NoPairs()
    ensures ActionPairs([]) == [] && ContradictionPairs([]) == []
  {
  }

  lemma AccountedCount(l: Candidate, others: seq<Candidate>, processed: nat, s: LlmScan)
    requires Accounted(l, others, processed, s)
    ensures |PairUp(l.memory.id, s.asked)| == |s.asked| && s.processed == processed + |s.asked|
  {
  }

  lemma OutcomesCount(o: LlmOutcome)
    requires OutcomesMatch(o)
    ensures |ActionPairs(o.actions)| + |ContradictionPairs(o.actions)| == |o.asked|
  {
    assert |multiset(o.asked)| == |multiset(ActionPairs(o.actions))| + |multiset(ContradictionPairs(o.actions))|;
  }

  lemma OutcomesAppend(a: LlmOutcome, b: LlmOutcome)
    requires OutcomesMatch(a) && OutcomesMatch(b)
    ensures OutcomesMatch(LlmOutcome(a.actions + b.actions, a.asked + b.asked))
  {
    ActionPairsAppend(a.actions, b.actions);
    ContradictionPairsAppend(a.actions, b.actions);
  }

  lemma {:induction false} ScanWithinLimit(text: Text.Rules, rule: Rule, limit: Option<nat>, tape: Tape, l: Candidate,
                                           others: seq<Candidate>, content: string, processed: nat)
    requires limit.Some? ==> processed <= limit.value
    ensures var r := ScanLlm(text, rule, limit, tape, l, others, content, processed);
      r.Ok? && limit.Some? ==> r.value.processed <= limit.value
    decreases |others|
  {
    hide MergedContent;
    if others != [] {
      var c, rest := others[0], others[1..];
      var next := MergedContent(text, rule, tape(processed), l, c, content);
      ScanWithinLimit(text, rule, limit, tape, l, rest, content, processed);
      if !BudgetSpent(limit, processed) {
        ScanWithinLimit(text, rule, limit, tape, l, rest, content, processed + 1);
        ScanWithinLimit(text, rule, limit, tape, l, rest, next, processed + 1);
      }
    }
  }
}
