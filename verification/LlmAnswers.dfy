/**
 * A run of the LLM strategy is determined by its questions and their answers, and the questions by the candidates
 * (plugins/memory/src/consolidator.rs, LlmConsolidator::consolidate).
 */
module LlmAnswers {
  import opened Wrappers
  import opened Candidates
  import opened SimpleStrategy
  import opened Clusters
  import opened ClusterFacts
  import opened LlmStrategy
  import opened LlmFacts
  import opened LlmRuns
  import opened CosineRuns
  import Text

  // ----- what the answers to a list of questions say; question k is answered by tape(first + k)

  /** The pairs whose answer is no contradiction. */
  function MergedBy(tape: Tape, asked: seq<Pair>, first: nat): seq<Pair> {
    if asked == [] then []
    else if tape(first).Contradict? then MergedBy(tape, asked[1..], first + 1)
    else [asked[0]] + MergedBy(tape, asked[1..], first + 1)
  }

  /** The contradictions answered, with their descriptions. */
  function OpposedBy(tape: Tape, asked: seq<Pair>, first: nat): seq<Action> {
    if asked == [] then []
    else if tape(first).Contradict? then
      [Contradiction(asked[0].0, asked[0].1, tape(first).description)] + OpposedBy(tape, asked[1..], first + 1)
    else OpposedBy(tape, asked[1..], first + 1)
  }

  function Contradictions(actions: seq<Action>): seq<Action> {
    if actions == [] then []
    else if actions[0].Contradiction? then [actions[0]] + Contradictions(actions[1..])
    else Contradictions(actions[1..])
  }

  /** The candidate of an id. */
  function Named(xs: seq<Candidate>, id: MemoryId): Option<Candidate> {
    if xs == [] then None
    else if xs[0].memory.id == id then Some(xs[0])
    else Named(xs[1..], id)
  }

  /** What an answer about l and a source makes of l's text so far: the provider's text, or the fallback's merge. */
  function NextText(text: Text.Rules, rule: Rule, verdict: Verdict, l: Candidate, source: Option<Candidate>, content: string): string {
    if verdict.Combine? then verdict.content
    else if verdict.Contradict? || source == None then content
    else
      var near := rule.nearIdentical(Vector(l), Vector(source.value));
      SimpleMergeContent(text, content, source.value.memory.content, near)
  }

  /** The text of l after the questions about it. */
  function TextLeft(text: Text.Rules, rule: Rule, tape: Tape, xs: seq<Candidate>, l: Candidate, asked: seq<Pair>, first: nat,
                    content: string): string {
    if asked == [] then content
    else
      var next := if asked[0].0 == l.memory.id then NextText(text, rule, tape(first), l, Named(xs, asked[0].1), content) else content;
      TextLeft(text, rule, tape, xs, l, asked[1..], first + 1, next)
  }

  lemma {:induction false} MergedByAppend(tape: Tape, a: seq<Pair>, b: seq<Pair>, first: nat)
    ensures MergedBy(tape, a + b, first) == MergedBy(tape, a, first) + MergedBy(tape, b, first + |a|)
  {
    if a == [] {
      assert a + b == b;
    } else {
      assert (a + b)[1..] == a[1..] + b;
      MergedByAppend(tape, a[1..], b, first + 1);
    }
  }

  lemma {:induction false} OpposedByAppend(tape: Tape, a: seq<Pair>, b: seq<Pair>, first: nat)
    ensures OpposedBy(tape, a + b, first) == OpposedBy(tape, a, first) + OpposedBy(tape, b, first + |a|)
  {
    if a == [] {
      assert a + b == b;
    } else {
      assert (a + b)[1..] == a[1..] + b;
      OpposedByAppend(tape, a[1..], b, first + 1);
    }
  }

  lemma {:induction false} ContradictionsAppend(a: seq<Action>, b: seq<Action>)
    ensures Contradictions(a + b) == Contradictions(a) + Contradictions(b)
  {
    if a == [] {
      assert a + b == b;
    } else {
      assert (a + b)[1..] == a[1..] + b;
      ContradictionsAppend(a[1..], b);
    }
  }

  lemma {:induction false} TextLeftAppend(text: Text.Rules, rule: Rule, tape: Tape, xs: seq<Candidate>, l: Candidate, a: seq<Pair>,
                                          b: seq<Pair>, first: nat, content: string)
    ensures TextLeft(text, rule, tape, xs, l, a + b, first, content) ==
            TextLeft(text, rule, tape, xs, l, b, first + |a|, TextLeft(text, rule, tape, xs, l, a, first, content))
  {
    hide NextText;
    if a == [] {
      assert a + b == b;
    } else {
      assert (a + b)[1..] == a[1..] + b;
      var next := if a[0].0 == l.memory.id then NextText(text, rule, tape(first), l, Named(xs, a[0].1), content) else content;
      TextLeftAppend(text, rule, tape, xs, l, a[1..], b, first + 1, next);
    }
  }

  lemma {:induction false} TextUntouched(text: Text.Rules, rule: Rule, tape: Tape, xs: seq<Candidate>, l: Candidate, asked: seq<Pair>,
                                         first: nat, content: string)
    requires forall p :: p in asked ==> p.0 != l.memory.id
    ensures TextLeft(text, rule, tape, xs, l, asked, first, content) == content
  {
    if asked != [] {
      assert asked[0] in asked;
      TextUntouched(text, rule, tape, xs, l, asked[1..], first + 1, content);
    }
  }

  lemma {:induction false} NamedMember(xs: seq<Candidate>, c: Candidate)
    requires DistinctIds(xs) && c in xs
    ensures Named(xs, c.memory.id) == Some(c)
  {
    if c != xs[0] {
      assert c in xs[1..];
      NamedMember(xs[1..], c);
    }
  }

  // ----- one survivor

  /** The questions about one survivor, answered from `processed` on, say what the scan found. */
  ghost predicate ScanAnswered(text: Text.Rules, rule: Rule, tape: Tape, xs: seq<Candidate>, l: Candidate, content: string,
                               processed: nat, s: LlmScan) {
    var asked := PairUp(l.memory.id, s.asked);
    && s.processed == processed + |s.asked|
    && PairUp(l.memory.id, Ids(s.sources)) == MergedBy(tape, asked, processed)
    && s.contradictions == OpposedBy(tape, asked, processed)
    && s.content == TextLeft(text, rule, tape, xs, l, asked, processed, content)
  }

  lemma PairUpFirst(id: MemoryId, x: MemoryId, ids: seq<MemoryId>)
    ensures PairUp(id, [x] + ids) == [(id, x)] + PairUp(id, ids) && ([(id, x)] + PairUp(id, ids))[1..] == PairUp(id, ids)
  {
  }

  lemma NothingAnswered(text: Text.Rules, rule: Rule, tape: Tape, xs: seq<Candidate>, l: Candidate, others: seq<Candidate>,
                        content: string, processed: nat)
    ensures ScanAnswered(text, rule, tape, xs, l, content, processed, LlmScan([], others, [], [], content, processed, true))
    ensures ScanAnswered(text, rule, tape, xs, l, content, processed, LlmScan([], [], [], [], content, processed, false))
  {
  }

  lemma OneMoreAnswer(text: Text.Rules, rule: Rule, tape: Tape, xs: seq<Candidate>, l: Candidate, c: Candidate, content: string,
                      processed: nat, r: LlmScanResult)
    requires DistinctIds(xs) && c in xs && r.Ok?
    requires var merged := if tape(processed).Contradict? then content else MergedContent(text, rule, tape(processed), l, c, content);
      ScanAnswered(text, rule, tape, xs, l, merged, processed + 1, r.value)
    ensures tape(processed).Contradict? ==>
      ScanAnswered(text, rule, tape, xs, l, content, processed, Oppose(l, c, tape(processed).description, r).value)
    ensures !tape(processed).Contradict? ==> ScanAnswered(text, rule, tape, xs, l, content, processed, TakeIn(c, r).value)
  {
    hide SimpleMergeContent, Ids, DistinctIds;
    PairUpFirst(l.memory.id, c.memory.id, r.value.asked);
    PairUpFirst(l.memory.id, c.memory.id, Ids(r.value.sources));
    IdsCons(c, r.value.sources);
    NamedMember(xs, c);
  }

  lemma {:induction false} ScanIsAnswered(text: Text.Rules, rule: Rule, limit: Option<nat>, tape: Tape, xs: seq<Candidate>, l: Candidate,
                                          others: seq<Candidate>, content: string, processed: nat)
    requires DistinctIds(xs) && forall o :: o in others ==> o in xs
    ensures var r := ScanLlm(text, rule, limit, tape, l, others, content, processed);
      r.Ok? ==> ScanAnswered(text, rule, tape, xs, l, content, processed, r.value)
    decreases |others|
  {
    hide Compare, MergedContent, ScanAnswered, DistinctIds;
    NothingAnswered(text, rule, tape, xs, l, others, content, processed);
    if others != [] {
      var c, rest := others[0], others[1..];
      var merged := MergedContent(text, rule, tape(processed), l, c, content);
      ScanIsAnswered(text, rule, limit, tape, xs, l, rest, content, processed);
      ScanIsAnswered(text, rule, limit, tape, xs, l, rest, content, processed + 1);
      ScanIsAnswered(text, rule, limit, tape, xs, l, rest, merged, processed + 1);
      StillAnswered(text, rule, tape, xs, l, c, content, processed, ScanLlm(text, rule, limit, tape, l, rest, content, processed));
      var r := ScanLlm(text, rule, limit, tape, l, rest, if tape(processed).Contradict? then content else merged, processed + 1);
      if r.Ok? {
        OneMoreAnswer(text, rule, tape, xs, l, c, content, processed, r);
      }
    }
  }

  lemma StillAnswered(text: Text.Rules, rule: Rule, tape: Tape, xs: seq<Candidate>, l: Candidate, c: Candidate, content: string,
                      processed: nat, r: LlmScanResult)
    requires r.Ok? ==> ScanAnswered(text, rule, tape, xs, l, content, processed, r.value)
    ensures r.Ok? ==> ScanAnswered(text, rule, tape, xs, l, content, processed, PassOver(c, r).value)
  {
  }

  // ----- whole runs

  /** The survivor of a merge, its text what the answers left of it, its scope the highest of the group where scopes are crossed. */
  ghost predicate MergeAnswered(text: Text.Rules, rule: Rule, tape: Tape, xs: seq<Candidate>, asked: seq<Pair>, first: nat, a: Action) {
    a.Merged? ==> exists l, sources: seq<Candidate> ::
      && l in xs && sources != [] && (forall s :: s in sources ==> s in xs)
      && a.sourceIds == Ids(sources)
      && a.result == l.memory.(content := a.result.content, scope := a.result.scope)
      && (if rule.crossScope then IsHighest(a.result.scope, l, sources) else a.result.scope == l.memory.scope)
      && a.result.content == TextLeft(text, rule, tape, xs, l, asked, first, l.memory.content)
  }

  /** The actions are what the answers say. */
  ghost predicate Answered(text: Text.Rules, rule: Rule, tape: Tape, xs: seq<Candidate>, first: nat, o: LlmOutcome) {
    && ActionPairs(o.actions) == MergedBy(tape, o.asked, first)
    && Contradictions(o.actions) == OpposedBy(tape, o.asked, first)
    && forall a :: a in o.actions ==> MergeAnswered(text, rule, tape, xs, o.asked, first, a)
  }

  lemma NoQuestions(text: Text.Rules, rule: Rule, tape: Tape, xs: seq<Candidate>, first: nat)
    ensures Answered(text, rule, tape, xs, first, LlmOutcome([], []))
  {
  }

  lemma {:induction false} OpposedByIsContradictions(tape: Tape, asked: seq<Pair>, first: nat)
    ensures var found := OpposedBy(tape, asked, first);
      Contradictions(found) == found && ActionPairs(found) == [] && forall a :: a in found ==> a.Contradiction?
  {
    if asked != [] {
      OpposedByIsContradictions(tape, asked[1..], first + 1);
      var rest := OpposedBy(tape, asked[1..], first + 1);
      if tape(first).Contradict? {
        assert OpposedBy(tape, asked, first)[1..] == rest;
      } else {
        assert OpposedBy(tape, asked, first) == rest;
      }
    }
  }

  /** One survivor's part of the actions. */
  lemma FirstAnswered(text: Text.Rules, rule: Rule, tape: Tape, xs: seq<Candidate>, l: Candidate, processed: nat, s: LlmScan)
    requires l in xs && forall x :: x in s.sources ==> x in xs
    requires ScanAnswered(text, rule, tape, xs, l, l.memory.content, processed, s)
    ensures Answered(text, rule, tape, xs, processed, LlmOutcome(LlmActions(rule, l, s), PairUp(l.memory.id, s.asked)))
    ensures forall a :: a in LlmActions(rule, l, s) && a.Merged? ==> a.result.id == l.memory.id
  {
    hide Ids, HighestScope, TextLeft, MergedBy, OpposedBy;
    OpposedByIsContradictions(tape, PairUp(l.memory.id, s.asked), processed);
    HighestIsHighest(l, s.sources);
    NoIds();
    var scope := if rule.crossScope then HighestScope(l.memory.scope, s.sources) else l.memory.scope;
    var merge := if s.sources == [] then [] else [Merged(Ids(s.sources), l.memory.(content := s.content, scope := scope))];
    assert LlmActions(rule, l, s) == s.contradictions + merge;
    OneMerge(merge, Ids(s.sources), l.memory.id);
    ActionPairsAppend(s.contradictions, merge);
    ContradictionsAppend(s.contradictions, merge);
  }

  lemma OneMerge(merge: seq<Action>, ids: seq<MemoryId>, id: MemoryId)
    requires if ids == [] then merge == [] else |merge| == 1 && merge[0].Merged? && merge[0].sourceIds == ids && merge[0].result.id == id
    ensures ActionPairs(merge) == PairUp(id, ids) && Contradictions(merge) == []
  {
    if merge != [] {
      assert merge[1..] == [];
      assert ActionPairs([]) == [];
    }
  }

  /** The questions about one survivor and those about others together. */
  lemma AnsweredTogether(text: Text.Rules, rule: Rule, tape: Tape, xs: seq<Candidate>, id: MemoryId, ids: seq<MemoryId>, processed: nat,
                         first: LlmOutcome, rest: LlmOutcome)
    requires id !in ids
    requires Answered(text, rule, tape, xs, processed, first) && (forall p :: p in first.asked ==> p.0 == id)
    requires forall a :: a in first.actions && a.Merged? ==> a.result.id == id
    requires Answered(text, rule, tape, xs, processed + |first.asked|, rest) && Within(rest.asked, ids)
    requires forall a :: a in rest.actions && a.Merged? ==> a.result.id in ids
    ensures Answered(text, rule, tape, xs, processed, LlmOutcome(first.actions + rest.actions, first.asked + rest.asked))
  {
    hide TextLeft, MergedBy, OpposedBy, MergeAnswered, Contradictions, ActionPairs;
    MergedByAppend(tape, first.asked, rest.asked, processed);
    OpposedByAppend(tape, first.asked, rest.asked, processed);
    ActionPairsAppend(first.actions, rest.actions);
    ContradictionsAppend(first.actions, rest.actions);
    forall a | a in first.actions + rest.actions
      ensures MergeAnswered(text, rule, tape, xs, first.asked + rest.asked, processed, a)
    {
      if a in first.actions {
        MoreQuestions(text, rule, tape, xs, first.asked, rest.asked, processed, a);
      } else {
        EarlierQuestions(text, rule, tape, xs, first.asked, rest.asked, processed, a);
      }
    }
  }

  lemma MoreQuestions(text: Text.Rules, rule: Rule, tape: Tape, xs: seq<Candidate>, asked: seq<Pair>, more: seq<Pair>, first: nat, a: Action)
    requires MergeAnswered(text, rule, tape, xs, asked, first, a)
    requires a.Merged? ==> forall p :: p in more ==> p.0 != a.result.id
    ensures MergeAnswered(text, rule, tape, xs, asked + more, first, a)
  {
    hide TextLeft, Ids, IsHighest;
    if a.Merged? {
      var l, sources: seq<Candidate> :|
        && l in xs && sources != [] && (forall s :: s in sources ==> s in xs)
        && a.sourceIds == Ids(sources)
        && a.result == l.memory.(content := a.result.content, scope := a.result.scope)
        && (if rule.crossScope then IsHighest(a.result.scope, l, sources) else a.result.scope == l.memory.scope)
        && a.result.content == TextLeft(text, rule, tape, xs, l, asked, first, l.memory.content);
      TextLeftAppend(text, rule, tape, xs, l, asked, more, first, l.memory.content);
      TextUntouched(text, rule, tape, xs, l, more, first + |asked|, a.result.content);
    }
  }

  lemma EarlierQuestions(text: Text.Rules, rule: Rule, tape: Tape, xs: seq<Candidate>, before: seq<Pair>, asked: seq<Pair>, first: nat, a: Action)
    requires MergeAnswered(text, rule, tape, xs, asked, first + |before|, a)
    requires a.Merged? ==> forall p :: p in before ==> p.0 != a.result.id
    ensures MergeAnswered(text, rule, tape, xs, before + asked, first, a)
  {
    hide TextLeft, Ids, IsHighest;
    if a.Merged? {
      var l, sources: seq<Candidate> :|
        && l in xs && sources != [] && (forall s :: s in sources ==> s in xs)
        && a.sourceIds == Ids(sources)
        && a.result == l.memory.(content := a.result.content, scope := a.result.scope)
        && (if rule.crossScope then IsHighest(a.result.scope, l, sources) else a.result.scope == l.memory.scope)
        && a.result.content == TextLeft(text, rule, tape, xs, l, asked, first + |before|, l.memory.content);
      TextLeftAppend(text, rule, tape, xs, l, before, asked, first, l.memory.content);
      TextUntouched(text, rule, tape, xs, l, before, first, l.memory.content);
    }
  }

  /** The survivors of a run's merges are candidates. */
  lemma {:induction false} SurvivorsWithin(actions: seq<Action>, ids: seq<MemoryId>)
    requires ActsWithin(actions, ids) && forall a :: a in actions && a.Merged? ==> a.sourceIds != []
    ensures forall a :: a in actions && a.Merged? ==> a.result.id in ids
  {
    if actions != [] {
      var a := actions[0];
      assert actions == [a] + actions[1..];
      assert forall p :: p in ActionPairs(actions[1..]) ==> p in ActionPairs(actions);
      assert forall p :: p in ContradictionPairs(actions[1..]) ==> p in ContradictionPairs(actions);
      if a.Merged? && a.sourceIds != [] {
        assert PairUp(a.result.id, a.sourceIds)[0] in ActionPairs(actions);
      }
      SurvivorsWithin(actions[1..], ids);
    }
  }

  lemma AnsweredHasSources(text: Text.Rules, rule: Rule, tape: Tape, xs: seq<Candidate>, first: nat, o: LlmOutcome)
    requires Answered(text, rule, tape, xs, first, o)
    ensures forall a :: a in o.actions && a.Merged? ==> a.sourceIds != []
  {
    forall a | a in o.actions && a.Merged? ensures a.sourceIds != [] {
      assert MergeAnswered(text, rule, tape, xs, o.asked, first, a);
    }
  }

  /**
   * The actions of every run are what the answers to its questions say: the merged pairs, the contradictions with their
   * descriptions, and of every survivor the text that the answers about it leave.
   */
  lemma {:induction false} AnswersDecide(text: Text.Rules, rule: Rule, limit: Option<nat>, tape: Tape, all: seq<Candidate>,
                                         xs: seq<Candidate>, processed: nat)
    requires DistinctIds(all) && DistinctIds(xs) && forall x :: x in xs ==> x in all
    ensures var r := RunLlm(text, rule, limit, tape, xs, processed);
      r.Ok? ==> Answered(text, rule, tape, all, processed, r.value)
    decreases |xs|
  {
    hide ScanLlm, LlmActions, PairUp, Answered, ScanAnswered, Within, ActsWithin, Separated, DistinctIds, Ids;
    NoQuestions(text, rule, tape, all, processed);
    if xs != [] {
      var l := xs[0];
      var r := ScanLlm(text, rule, limit, tape, l, xs[1..], l.memory.content, processed);
      DistinctIdsTail(rule, xs);
      assert xs == [l] + xs[1..];
      ScanIsAnswered(text, rule, limit, tape, all, l, xs[1..], l.memory.content, processed);
      ScanSeparates(text, rule, limit, tape, l, xs[1..], l.memory.content, processed);
      if r.Ok? {
        var s := r.value;
        var first := LlmOutcome(LlmActions(rule, l, s), PairUp(l.memory.id, s.asked));
        SeparatedMembers(xs, s);
        AskedCount(text, rule, tape, all, l, processed, s);
        FirstAnswered(text, rule, tape, all, l, processed, s);
        if !s.limitReached {
          AnswersDecide(text, rule, limit, tape, all, s.kept, s.processed);
          NoPairIsAskedTwice(text, rule, limit, tape, s.kept, s.processed);
          ContradictionWitnessIsNeverConsumed(text, rule, limit, tape, s.kept, s.processed);
          var rest := RunLlm(text, rule, limit, tape, s.kept, s.processed);
          if rest.Ok? {
            AnsweredHasSources(text, rule, tape, all, s.processed, rest.value);
            SurvivorsWithin(rest.value.actions, Ids(s.kept));
            AnsweredTogether(text, rule, tape, all, l.memory.id, Ids(s.kept), processed, first, rest.value);
          }
        }
      }
    }
  }

  lemma SeparatedMembers(xs: seq<Candidate>, s: LlmScan)
    requires xs != [] && DistinctIds(xs) && Separated(xs[1..], s)
    ensures DistinctIds(s.kept) && xs[0].memory.id !in Ids(s.kept)
    ensures forall x :: x in s.kept || x in s.sources ==> x in xs[1..]
  {
    hide Ids;
    IdsMember(s.kept, xs[0].memory.id);
  }

  lemma AskedCount(text: Text.Rules, rule: Rule, tape: Tape, xs: seq<Candidate>, l: Candidate, processed: nat, s: LlmScan)
    requires ScanAnswered(text, rule, tape, xs, l, l.memory.content, processed, s)
    ensures s.processed == processed + |PairUp(l.memory.id, s.asked)|
    ensures forall p :: p in PairUp(l.memory.id, s.asked) ==> p.0 == l.memory.id
  {
  }

  // ----- the answer that has the last word

  /** Question k merged a source into l, and no later question did. */
  ghost predicate LastMerge(tape: Tape, asked: seq<Pair>, first: nat, id: MemoryId, k: nat) {
    && k < |asked| && asked[k].0 == id && !tape(first + k).Contradict?
    && forall j :: k < j < |asked| && asked[j].0 == id ==> tape(first + j).Contradict?
  }

  lemma {:induction false} OnlyContradicted(text: Text.Rules, rule: Rule, tape: Tape, xs: seq<Candidate>, l: Candidate, asked: seq<Pair>,
                                            first: nat, content: string)
    requires forall j :: 0 <= j < |asked| && asked[j].0 == l.memory.id ==> tape(first + j).Contradict?
    ensures TextLeft(text, rule, tape, xs, l, asked, first, content) == content
  {
    if asked != [] {
      forall j | 0 <= j < |asked| - 1 && asked[1..][j].0 == l.memory.id ensures tape(first + 1 + j).Contradict? {
        assert asked[j + 1].0 == l.memory.id && first + (j + 1) == first + 1 + j;
      }
      OnlyContradicted(text, rule, tape, xs, l, asked[1..], first + 1, content);
    }
  }

  lemma TextAfterQuestion(text: Text.Rules, rule: Rule, tape: Tape, xs: seq<Candidate>, l: Candidate, asked: seq<Pair>, first: nat, k: nat)
    requires LastMerge(tape, asked, first, l.memory.id, k)
    ensures TextLeft(text, rule, tape, xs, l, asked, first, l.memory.content) ==
      NextText(text, rule, tape(first + k), l, Named(xs, asked[k].1),
               TextLeft(text, rule, tape, xs, l, asked[..k], first, l.memory.content))
  {
    hide NextText;
    var before := TextLeft(text, rule, tape, xs, l, asked[..k], first, l.memory.content);
    assert asked == asked[..k] + asked[k..];
    TextLeftAppend(text, rule, tape, xs, l, asked[..k], asked[k..], first, l.memory.content);
    assert asked[k..][1..] == asked[k + 1..];
    var later := asked[k + 1..];
    forall j | 0 <= j < |later| && later[j].0 == l.memory.id ensures tape(first + k + 1 + j).Contradict? {
      assert asked[k + 1 + j].0 == l.memory.id && first + (k + 1 + j) == first + k + 1 + j;
    }
    OnlyContradicted(text, rule, tape, xs, l, later, first + k + 1,
      NextText(text, rule, tape(first + k), l, Named(xs, asked[k].1), before));
  }

  /** The text of a merge: the provider's last one, or the fallback's merge of what was there with the last source. */
  ghost predicate LastWord(text: Text.Rules, rule: Rule, tape: Tape, xs: seq<Candidate>, asked: seq<Pair>, first: nat, k: nat, a: Action)
    requires k < |asked|
  {
    a.Merged? && exists l, s ::
      && l in xs && s in xs && l.memory.id == a.result.id && s.memory.id == asked[k].1
      && var before := TextLeft(text, rule, tape, xs, l, asked[..k], first, l.memory.content);
         var near := rule.nearIdentical(Vector(l), Vector(s));
         && (tape(first + k).Combine? ==> a.result.content == tape(first + k).content)
         && (tape(first + k).Unusable? ==> a.result.content == SimpleMergeContent(text, before, s.memory.content, near))
  }

  /** Every merge of a run has the text that the last answer about its survivor gives it. */
  lemma LastAnswerDecides(text: Text.Rules, rule: Rule, limit: Option<nat>, tape: Tape, xs: seq<Candidate>, processed: nat, a: Action, k: nat)
    requires DistinctIds(xs) && RunLlm(text, rule, limit, tape, xs, processed).Ok?
    requires var o := RunLlm(text, rule, limit, tape, xs, processed).value;
      a in o.actions && a.Merged? && LastMerge(tape, o.asked, processed, a.result.id, k)
    ensures LastWord(text, rule, tape, xs, RunLlm(text, rule, limit, tape, xs, processed).value.asked, processed, k, a)
  {
    hide RunLlm, DistinctIds, IsHighest, Ids, TextLeft, SimpleMergeContent;
    var o := RunLlm(text, rule, limit, tape, xs, processed).value;
    AnswersDecide(text, rule, limit, tape, xs, xs, processed);
    assert MergeAnswered(text, rule, tape, xs, o.asked, processed, a);
    var l :| l in xs && l.memory.id == a.result.id
      && a.result.content == TextLeft(text, rule, tape, xs, l, o.asked, processed, l.memory.content);
    TextAfterQuestion(text, rule, tape, xs, l, o.asked, processed, k);
    NoPairIsAskedTwice(text, rule, limit, tape, xs, processed);
    assert o.asked[k] in o.asked;
    IdsMember(xs, o.asked[k].1);
    var s :| s in xs && s.memory.id == o.asked[k].1;
    NamedMember(xs, s);
  }
}
