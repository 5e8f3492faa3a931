/**
 * The actions of a consolidation run are always acceptable to the store (plugins/memory/src/consolidator.rs against
 * the apply loop of plugins/memory/src/cli.rs).
 */
module ApplicableRuns {
  import opened Wrappers
  import opened Scopes
  import opened Candidates
  import opened SimpleStrategy
  import opened ClusterFacts
  import opened Confluence
  import opened ConsolidateCommand
  import opened ConfluenceTheorem
  import opened LlmStrategy
  import Similarity
  import Text

  ghost predicate IsStored(cs: seq<Candidate>, x: Candidate) {
    exists c :: c in cs && c.memory.id == x.memory.id && c.memory.scope == x.memory.scope && c.memory.state != Deleted
  }

  /** Every visited memory is in the store, in its scope and not deleted. */
  ghost predicate Stored(cs: seq<Candidate>, xs: seq<Candidate>) {
    forall x :: x in xs ==> IsStored(cs, x)
  }

  lemma {:induction false} HighestScopeRank(scope: MemoryScope, sources: seq<Candidate>)
    ensures scope == HighestScope(scope, sources) || scope.CanPromoteTo(HighestScope(scope, sources))
  {
    if sources != [] {
      HighestScopeRank(scope, sources[..|sources| - 1]);
    }
  }

  /** The merge of a survivor, whatever its text. */
  function MergeOf(rule: Rule, l: Candidate, sources: seq<Candidate>, content: string): Action {
    var scope := if rule.crossScope then HighestScope(l.memory.scope, sources) else l.memory.scope;
    Merged(Ids(sources), l.memory.(content := content, scope := scope))
  }

  lemma StoredIsHeld(cs: seq<Candidate>, x: Candidate)
    requires IsStored(cs, x)
    ensures Has(cs, x.memory.id) && CanRetire(cs, x.memory.id)
  {
  }

  lemma MergeAccepted(text: Text.Rules, rule: Rule, cs: seq<Candidate>, l: Candidate, sources: seq<Candidate>, content: string)
    requires DistinctIds(cs) && IsStored(cs, l) && Stored(cs, sources)
    ensures Accepts(text, cs, MergeOf(rule, l, sources, content))
  {
    HighestScopeRank(l.memory.scope, sources);
    StoredIsHeld(cs, l);
    var d :| d in cs && d.memory.id == l.memory.id && d.memory.scope == l.memory.scope;
    forall c | c in cs && c.memory.id == l.memory.id ensures c == d {
      SameIdSame(cs, c, d);
    }
    forall id | id in Ids(sources) ensures CanRetire(cs, id) {
      IdsMember(sources, id);
      var s :| s in sources && s.memory.id == id;
      StoredIsHeld(cs, s);
    }
  }

  /** The other memories stay stored as they were. */
  lemma OthersStayStored(rule: Rule, cs: seq<Candidate>, l: Candidate, sources: seq<Candidate>, content: string, kept: seq<Candidate>)
    requires Stored(cs, kept) && forall x :: x in kept ==> x.memory.id != l.memory.id
    ensures Stored(AfterAction(MergeOf(rule, l, sources, content), cs), kept)
  {
    var action := MergeOf(rule, l, sources, content);
    var ds := AfterAction(action, cs);
    forall x | x in kept ensures IsStored(ds, x) {
      var c :| c in cs && c.memory.id == x.memory.id && c.memory.scope == x.memory.scope && c.memory.state != Deleted;
      var i :| 0 <= i < |cs| && cs[i] == c;
      assert ds[i] == ApplyAction(action, c) && ds[i] in ds;
    }
  }

  lemma OneMore(text: Text.Rules, cs: seq<Candidate>, a: Action, rest: seq<Action>)
    requires Accepts(text, cs, a) && Applicable(text, AfterAction(a, cs), rest)
    ensures Applicable(text, cs, [a] + rest)
  {
    hide Accepts;
    assert ([a] + rest)[1..] == rest;
  }

  lemma NoActions(text: Text.Rules, cs: seq<Candidate>)
    ensures Applicable(text, cs, [])
  {
  }

  lemma {:induction false} ContradictionsFirst(text: Text.Rules, cs: seq<Candidate>, found: seq<Action>, rest: seq<Action>)
    requires forall a :: a in found ==> a.Contradiction? && Accepts(text, cs, a)
    requires Applicable(text, cs, rest)
    ensures Applicable(text, cs, found + rest)
    decreases |found|
  {
    hide Accepts, AfterAction, Applicable;
    if found == [] {
      assert found + rest == rest;
    } else {
      assert found[0] in found;
      NothingApplied(found[0], cs);
      ContradictionsFirst(text, cs, found[1..], rest);
      OneMore(text, cs, found[0], found[1..] + rest);
      assert [found[0]] + (found[1..] + rest) == found + rest;
    }
  }

  /** What one survivor contributes, in either strategy: contradictions, then perhaps a merge. */
  lemma SurvivorApplies(text: Text.Rules, rule: Rule, cs: seq<Candidate>, l: Candidate, sources: seq<Candidate>,
                        content: string, found: seq<Action>, kept: seq<Candidate>, rest: seq<Action>)
    returns (ds: seq<Candidate>)
    requires DistinctIds(cs) && IsStored(cs, l) && Stored(cs, sources) && Stored(cs, kept)
    requires forall x :: x in kept ==> x.memory.id != l.memory.id
    requires forall a :: a in found ==> a.Contradiction? && Accepts(text, cs, a)
    ensures DistinctIds(ds) && Stored(ds, kept)
    ensures Applicable(text, ds, rest) ==>
              Applicable(text, cs, found + (if sources == [] then [] else [MergeOf(rule, l, sources, content)]) + rest)
  {
    hide Accepts, AfterAction, Applicable, Stored, IsStored, MergeOf, DistinctIds;
    if sources == [] {
      ds := cs;
      if Applicable(text, ds, rest) {
        ContradictionsFirst(text, cs, found, rest);
        assert found + [] + rest == found + rest;
      }
    } else {
      var a := MergeOf(rule, l, sources, content);
      ds := AfterAction(a, cs);
      MergeAccepted(text, rule, cs, l, sources, content);
      OthersStayStored(rule, cs, l, sources, content, kept);
      AfterDistinct(a, cs);
      if Applicable(text, ds, rest) {
        OneMore(text, cs, a, rest);
        ContradictionsFirst(text, cs, found, [a] + rest);
        assert found + [a] + rest == found + ([a] + rest);
      }
    }
  }

  // ----- the simple strategy

  lemma {:induction false} SimpleScanMembers(rule: Rule, limit: Option<nat>, l: Candidate, others: seq<Candidate>, processed: nat)
    ensures var r := ScanSimple(rule, limit, l, others, processed);
      r.Ok? ==> forall x :: x in r.value.sources || x in r.value.kept ==> x in others
    decreases |others|
  {
    hide Compare;
    if others != [] {
      assert others == [others[0]] + others[1..];
      SimpleScanMembers(rule, limit, l, others[1..], processed);
      SimpleScanMembers(rule, limit, l, others[1..], processed + 1);
    }
  }

  lemma OthersOf(cs: seq<Candidate>, xs: seq<Candidate>, some: seq<Candidate>)
    requires xs != [] && Stored(cs, xs) && forall x :: x in some ==> x in xs[1..]
    ensures Stored(cs, some) && IsStored(cs, xs[0])
  {
    assert xs[0] in xs;
  }

  lemma KeptAreOthers(xs: seq<Candidate>, kept: seq<Candidate>)
    requires xs != [] && DistinctIds(xs) && forall x :: x in kept ==> x in xs[1..]
    ensures forall x :: x in kept ==> x.memory.id != xs[0].memory.id
  {
  }

  /** The apply loop accepts every action of a simple run over memories that it stores. */
  lemma {:induction false} RunIsApplicable(text: Text.Rules, rule: Rule, limit: Option<nat>, cs: seq<Candidate>, xs: seq<Candidate>, processed: nat)
    requires DistinctIds(xs) && DistinctIds(cs) && Stored(cs, xs)
    ensures var r := RunSimple(rule, limit, xs, processed); r.Ok? ==> Applicable(text, cs, r.value)
    decreases |xs|
  {
    hide ScanSimple, Accepts, AfterAction, Applicable, Stored, IsStored, MergeOf, HighestScope, DistinctIds;
    NoActions(text, cs);
    if xs != [] {
      SimpleScanMembers(rule, limit, xs[0], xs[1..], processed);
      var r := ScanSimple(rule, limit, xs[0], xs[1..], processed);
      if r.Ok? {
        var sources, kept := r.value.sources, r.value.kept;
        SimpleScanDistinct(rule, limit, xs, processed);
        OthersOf(cs, xs, sources);
        OthersOf(cs, xs, kept);
        KeptAreOthers(xs, kept);
        SimpleMerge(rule, xs[0], sources);
        var rest := if r.value.limitReached then Ok([]) else RunSimple(rule, limit, kept, r.value.processed);
        if rest.Ok? {
          var ds := SurvivorApplies(text, rule, cs, xs[0], sources, xs[0].memory.content, [], kept, rest.value);
          NoActions(text, ds);
          if !r.value.limitReached {
            RunIsApplicable(text, rule, limit, ds, kept, r.value.processed);
          }
          var first := SimpleAction(rule, xs[0], sources);
          assert first + rest.value == [] + first + rest.value && first + [] == first;
        }
      }
    }
  }

  lemma SimpleMerge(rule: Rule, l: Candidate, sources: seq<Candidate>)
    ensures SimpleAction(rule, l, sources) == if sources == [] then [] else [MergeOf(rule, l, sources, l.memory.content)]
  {
  }

  lemma SimpleScanDistinct(rule: Rule, limit: Option<nat>, xs: seq<Candidate>, processed: nat)
    requires xs != [] && DistinctIds(xs)
    ensures var r := ScanSimple(rule, limit, xs[0], xs[1..], processed); r.Ok? ==> DistinctIds(r.value.kept)
  {
    assert DistinctIds(xs[1..]);
    SimpleKeptDistinct(rule, limit, xs[0], xs[1..], processed);
  }

  lemma {:induction false} SimpleKeptDistinct(rule: Rule, limit: Option<nat>, l: Candidate, others: seq<Candidate>, processed: nat)
    requires DistinctIds(others)
    ensures var r := ScanSimple(rule, limit, l, others, processed); r.Ok? ==> DistinctIds(r.value.kept)
    decreases |others|
  {
    hide Compare;
    if others != [] {
      SimpleKeptDistinct(rule, limit, l, others[1..], processed);
      SimpleKeptDistinct(rule, limit, l, others[1..], processed + 1);
      SimpleScanMembers(rule, limit, l, others[1..], processed);
      var r := ScanSimple(rule, limit, l, others[1..], processed);
      if r.Ok? {
        DistinctIdsCons(others, r.value.kept);
      }
    }
  }

  lemma DistinctIdsCons(others: seq<Candidate>, kept: seq<Candidate>)
    requires others != [] && DistinctIds(others) && DistinctIds(kept) && forall x :: x in kept ==> x in others[1..]
    ensures DistinctIds([others[0]] + kept)
  {
    forall k | 0 <= k < |kept| ensures kept[k].memory.id != others[0].memory.id {
      assert kept[k] in others[1..];
    }
  }

  // ----- the LLM strategy

  /** Every contradiction has a description, as parsing sees to it. */
  ghost predicate Worded(text: Text.Rules, tape: Tape) {
    forall n :: tape(n).Contradict? ==> Text.Trim(text, tape(n).description) != ""
  }

  /** What a scan hands on comes from the others, and its contradictions name the survivor and one of them. */
  ghost predicate ComesFrom(text: Text.Rules, l: Candidate, others: seq<Candidate>, s: LlmScan) {
    && DistinctIds(s.kept)
    && (forall x :: x in s.sources || x in s.kept ==> x in others)
    && (forall a :: a in s.contradictions ==> Opposes(text, l, others, a))
  }

  ghost predicate Opposes(text: Text.Rules, l: Candidate, others: seq<Candidate>, a: Action) {
    && a.Contradiction? && a.memoryA == l.memory.id && Text.Trim(text, a.description) != ""
    && exists x :: x in others && x.memory.id == a.memoryB
  }

  lemma {:induction false} LlmScanMembers(text: Text.Rules, rule: Rule, limit: Option<nat>, tape: Tape, l: Candidate,
                                          others: seq<Candidate>, content: string, processed: nat)
    requires DistinctIds(others) && Worded(text, tape)
    ensures var r := ScanLlm(text, rule, limit, tape, l, others, content, processed);
      r.Ok? ==> ComesFrom(text, l, others, r.value)
    decreases |others|
  {
    hide Compare, MergedContent, ComesFrom, Worded, DistinctIds;
    FirstAlone(text, l, others, content, processed);
    if others != [] {
      var c, rest := others[0], others[1..];
      var merged := MergedContent(text, rule, tape(processed), l, c, content);
      LlmScanMembers(text, rule, limit, tape, l, rest, content, processed);
      LlmScanMembers(text, rule, limit, tape, l, rest, content, processed + 1);
      LlmScanMembers(text, rule, limit, tape, l, rest, merged, processed + 1);
      StillFrom(text, l, others, ScanLlm(text, rule, limit, tape, l, rest, content, processed));
      StillFrom(text, l, others, ScanLlm(text, rule, limit, tape, l, rest, merged, processed + 1));
      WordedAt(text, tape, processed);
      if tape(processed).Contradict? {
        OpposedFrom(text, l, others, tape(processed).description, ScanLlm(text, rule, limit, tape, l, rest, content, processed + 1));
      }
    }
  }

  lemma WordedAt(text: Text.Rules, tape: Tape, n: nat)
    requires Worded(text, tape)
    ensures tape(n).Contradict? ==> Text.Trim(text, tape(n).description) != ""
  {
  }

  lemma FirstAlone(text: Text.Rules, l: Candidate, others: seq<Candidate>, content: string, processed: nat)
    requires DistinctIds(others)
    ensures ComesFrom(text, l, [], LlmScan([], [], [], [], content, processed, false))
    ensures ComesFrom(text, l, others, LlmScan([], others, [], [], content, processed, true))
    ensures others != [] ==> DistinctIds(others[1..])
  {
  }

  lemma StillFrom(text: Text.Rules, l: Candidate, others: seq<Candidate>, r: LlmScanResult)
    requires others != [] && DistinctIds(others) && (r.Ok? ==> ComesFrom(text, l, others[1..], r.value))
    ensures var kept := PassOver(others[0], r); kept.Ok? ==> ComesFrom(text, l, others, kept.value)
    ensures var taken := TakeIn(others[0], r); taken.Ok? ==> ComesFrom(text, l, others, taken.value)
  {
    if r.Ok? {
      DistinctIdsCons(others, r.value.kept);
    }
  }

  lemma OpposedFrom(text: Text.Rules, l: Candidate, others: seq<Candidate>, description: string, r: LlmScanResult)
    requires others != [] && DistinctIds(others) && (r.Ok? ==> ComesFrom(text, l, others[1..], r.value))
    requires Text.Trim(text, description) != ""
    ensures var opposed := Oppose(l, others[0], description, r); opposed.Ok? ==> ComesFrom(text, l, others, opposed.value)
  {
    hide Text.Trim, Opposes, DistinctIds;
    if r.Ok? {
      DistinctIdsCons(others, r.value.kept);
      var action := Contradiction(l.memory.id, others[0].memory.id, description);
      OpposesFirst(text, l, others, description);
      forall a | a in [action] + r.value.contradictions ensures Opposes(text, l, others, a) {
        if a != action {
          OpposesMore(text, l, others, a);
        }
      }
    }
  }

  lemma OpposesFirst(text: Text.Rules, l: Candidate, others: seq<Candidate>, description: string)
    requires others != [] && Text.Trim(text, description) != ""
    ensures Opposes(text, l, others, Contradiction(l.memory.id, others[0].memory.id, description))
  {
    assert others[0] in others;
  }

  lemma OpposesMore(text: Text.Rules, l: Candidate, others: seq<Candidate>, a: Action)
    requires others != [] && Opposes(text, l, others[1..], a)
    ensures Opposes(text, l, others, a)
  {
    hide Text.Trim;
  }

  lemma ContradictionsAccepted(text: Text.Rules, cs: seq<Candidate>, xs: seq<Candidate>, s: LlmScan)
    requires xs != [] && DistinctIds(xs) && Stored(cs, xs) && ComesFrom(text, xs[0], xs[1..], s)
    ensures forall a :: a in s.contradictions ==> a.Contradiction? && Accepts(text, cs, a)
    ensures DistinctIds(s.kept) && forall x :: x in s.sources || x in s.kept ==> x in xs[1..]
  {
    hide IsStored;
    forall a | a in s.contradictions ensures a.Contradiction? && Accepts(text, cs, a) {
      assert Opposes(text, xs[0], xs[1..], a);
      var x :| x in xs[1..] && x.memory.id == a.memoryB;
      assert xs[0] in xs && x in xs;
      StoredIsHeld(cs, xs[0]);
      StoredIsHeld(cs, x);
    }
  }

  /** The apply loop accepts every action of an LLM run over memories that it stores, whatever is answered. */
  lemma {:induction false} LlmRunIsApplicable(text: Text.Rules, rule: Rule, limit: Option<nat>, tape: Tape,
                                              cs: seq<Candidate>, xs: seq<Candidate>, processed: nat)
    requires Worded(text, tape) && DistinctIds(xs) && DistinctIds(cs) && Stored(cs, xs)
    ensures var r := RunLlm(text, rule, limit, tape, xs, processed); r.Ok? ==> Applicable(text, cs, r.value.actions)
    decreases |xs|
  {
    hide ScanLlm, Accepts, AfterAction, Applicable, Stored, IsStored, MergeOf, HighestScope, DistinctIds, ComesFrom, Worded;
    NoActions(text, cs);
    if xs != [] {
      var l := xs[0];
      FirstAlone(text, l, xs, [], 0);
      LlmScanMembers(text, rule, limit, tape, l, xs[1..], l.memory.content, processed);
      var r := ScanLlm(text, rule, limit, tape, l, xs[1..], l.memory.content, processed);
      if r.Ok? {
        var s := r.value;
        ContradictionsAccepted(text, cs, xs, s);
        OthersOf(cs, xs, s.sources);
        OthersOf(cs, xs, s.kept);
        KeptAreOthers(xs, s.kept);
        LlmMerge(rule, l, s);
        var rest := if s.limitReached then Ok(LlmOutcome([], [])) else RunLlm(text, rule, limit, tape, s.kept, s.processed);
        if rest.Ok? {
          var ds := SurvivorApplies(text, rule, cs, l, s.sources, s.content, s.contradictions, s.kept, rest.value.actions);
          NoActions(text, ds);
          if !s.limitReached {
            LlmRunIsApplicable(text, rule, limit, tape, ds, s.kept, s.processed);
          }
          assert LlmActions(rule, l, s) + [] == LlmActions(rule, l, s);
        }
      }
    }
  }

  lemma LlmMerge(rule: Rule, l: Candidate, s: LlmScan)
    ensures LlmActions(rule, l, s) ==
            s.contradictions + if s.sources == [] then [] else [MergeOf(rule, l, s.sources, s.content)]
  {
  }

  // ----- the whole command

  /** Only active memories are visited, as they are stored; ps prepares them, with whatever embeddings. */
  lemma VisitedAreStored(cs: seq<Candidate>, ps: seq<Candidate>)
    requires DistinctIds(cs) && |ps| == |cs| && forall i :: 0 <= i < |cs| ==> ps[i].memory == cs[i].memory
    ensures DistinctIds(PriorityOrder(ps)) && Stored(cs, PriorityOrder(ps))
  {
    PriorityOrderDistinct(ps);
    OrderMembers(ps);
    forall x | x in PriorityOrder(ps) ensures IsStored(cs, x) {
      var i :| 0 <= i < |ps| && ps[i] == x;
      assert cs[i] in cs && cs[i].memory == x.memory;
    }
  }

  /** A consolidation over the memories that the store lists is applied to the end, by either strategy. */
  lemma CommandsAreApplicable(text: Text.Rules, rule: Rule, limit: Option<nat>, embed: string -> Option<Similarity.Embedding>,
                              tape: Tape, cs: seq<Candidate>)
    requires DistinctIds(cs) && Worded(text, tape)
    ensures var r := Simple(rule, limit, cs); r.Ok? ==> Applicable(text, cs, r.value)
    ensures var r := Llm(text, rule, limit, embed, tape, cs); r.Ok? ==> Applicable(text, cs, r.value.actions)
  {
    hide Applicable, RunSimple, RunLlm, Worded;
    VisitedAreStored(cs, PrepareAll(cs));
    VisitedAreStored(cs, PrepareAllWith(embed, cs));
    RunIsApplicable(text, rule, limit, cs, PriorityOrder(PrepareAll(cs)), 0);
    LlmRunIsApplicable(text, rule, limit, tape, cs, PriorityOrder(PrepareAllWith(embed, cs)), 0);
  }
}
