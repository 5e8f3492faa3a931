/**
 * The LLM consolidation strategy (plugins/memory/src/consolidator.rs, LlmConsolidator::consolidate). The
 * provider is a tape: the verdict that its n-th answer parses to, for any sequence of answers whatever.
 */
module LlmStrategy {
  import opened Wrappers
  import opened Scopes
  import opened Candidates
  import opened SimpleStrategy
  import opened Clusters
  import Similarity
  import Text

  /** Unusable stands for a failing provider and for an answer that parses to nothing. */
  datatype Verdict = Combine(content: string) | Contradict(description: string) | Unusable

  type Tape = nat -> Verdict

  /** How the fallback merges two contents; `nearIdentical` is the comparison of the similarity with 0.95. */
  function SimpleMergeContent(text: Text.Rules, existing: string, candidate: string, nearIdentical: bool): string {
    var e, c := Text.Trim(text, existing), Text.Trim(text, candidate);
    var ne, nc := Text.NormalizeForMerge(text, e), Text.NormalizeForMerge(text, c);
    if nearIdentical then c
    else if ne == nc then e
    else if Text.Contains(nc, ne) || |c| > |e| * 6 / 5 then c
    else e
  }

  /** The fallback keeps one of the two contents, trimmed. */
  lemma MergeKeepsOne(text: Text.Rules, existing: string, candidate: string, nearIdentical: bool)
    ensures SimpleMergeContent(text, existing, candidate, nearIdentical) in
            {Text.Trim(text, existing), Text.Trim(text, candidate)}
  {
  }

  // ----- one survivor

  datatype LlmScan = LlmScan(
    sources: seq<Candidate>,
    kept: seq<Candidate>,
    asked: seq<MemoryId>,
    contradictions: seq<Action>,
    content: string,
    processed: nat,
    limitReached: bool)

  type LlmScanResult = Result<LlmScan, Similarity.SimilarityError>

  function PassOver(c: Candidate, r: LlmScanResult): LlmScanResult {
    if r.Err? then r else Ok(r.value.(kept := [c] + r.value.kept))
  }

  function TakeIn(c: Candidate, r: LlmScanResult): LlmScanResult {
    if r.Err? then r
    else Ok(r.value.(sources := [c] + r.value.sources, asked := [c.memory.id] + r.value.asked))
  }

  function Oppose(l: Candidate, c: Candidate, description: string, r: LlmScanResult): LlmScanResult {
    if r.Err? then r
    else
      var action := Contradiction(l.memory.id, c.memory.id, description);
      Ok(r.value.(kept := [c] + r.value.kept, asked := [c.memory.id] + r.value.asked,
                  contradictions := [action] + r.value.contradictions))
  }

  /** The content after a pair is merged: the provider's, or the fallback's. */
  function MergedContent(text: Text.Rules, rule: Rule, verdict: Verdict, l: Candidate, c: Candidate, content: string): string {
    match verdict
    case Combine(merged) => merged
    case _ => SimpleMergeContent(text, content, c.memory.content, rule.nearIdentical(Vector(l), Vector(c)))
  }

  function ScanLlm(text: Text.Rules, rule: Rule, limit: Option<nat>, tape: Tape, l: Candidate, others: seq<Candidate>,
                   content: string, processed: nat): (r: LlmScanResult)
    ensures r.Ok? ==> |r.value.kept| <= |others|
    decreases |others|
  {
    if others == [] then Ok(LlmScan([], [], [], [], content, processed, false))
    else
      var c, rest := others[0], others[1..];
      match Compare(rule, l, c)
      case Err(e) => Err(e)
      case Ok(false) => PassOver(c, ScanLlm(text, rule, limit, tape, l, rest, content, processed))
      case Ok(true) =>
        if BudgetSpent(limit, processed) then Ok(LlmScan([], others, [], [], content, processed, true))
        else if tape(processed).Contradict? then
          Oppose(l, c, tape(processed).description, ScanLlm(text, rule, limit, tape, l, rest, content, processed + 1))
        else
          TakeIn(c, ScanLlm(text, rule, limit, tape, l, rest, MergedContent(text, rule, tape(processed), l, c, content),
                            processed + 1))
  }

  /** The contradictions found while scanning, then the merge, if anything was merged. */
  function LlmActions(rule: Rule, l: Candidate, scan: LlmScan): seq<Action> {
    scan.contradictions +
    if scan.sources == [] then []
    else
      var scope := if rule.crossScope then HighestScope(l.memory.scope, scan.sources) else l.memory.scope;
      [Merged(Ids(scan.sources), l.memory.(content := scan.content, scope := scope))]
  }

  // ----- all survivors

  /** The actions, and the pairs asked about, in order. */
  datatype LlmOutcome = LlmOutcome(actions: seq<Action>, asked: seq<Pair>)

  type LlmRunResult = Result<LlmOutcome, Similarity.SimilarityError>

  function Then(first: LlmOutcome, r: LlmRunResult): LlmRunResult {
    if r.Err? then r else Ok(LlmOutcome(first.actions + r.value.actions, first.asked + r.value.asked))
  }

  function RunLlm(text: Text.Rules, rule: Rule, limit: Option<nat>, tape: Tape, xs: seq<Candidate>, processed: nat): LlmRunResult
    decreases |xs|
  {
    if xs == [] then Ok(LlmOutcome([], []))
    else match ScanLlm(text, rule, limit, tape, xs[0], xs[1..], xs[0].memory.content, processed)
      case Err(e) => Err(e)
      case Ok(scan) =>
        var first := LlmOutcome(LlmActions(rule, xs[0], scan), PairUp(xs[0].memory.id, scan.asked));
        if scan.limitReached then Ok(first)
        else Then(first, RunLlm(text, rule, limit, tape, scan.kept, scan.processed))
  }

  // ----- the loops themselves

  ghost function ResumeLlm(done: LlmScan, r: LlmScanResult): LlmScanResult {
    if r.Err? then r
    else
      var v := r.value;
      Ok(LlmScan(done.sources + v.sources, done.kept + v.kept, done.asked + v.asked,
                 done.contradictions + v.contradictions, v.content, v.processed, v.limitReached))
  }

  /** The inner loop's invariant before it looks at order[next]; `done` is what it has collected. */
  ghost predicate LlmProgress(text: Text.Rules, rule: Rule, limit: Option<nat>, tape: Tape, cs: seq<Candidate>,
                              order: seq<nat>, position: nat, entry: seq<bool>, spec: LlmScanResult, next: nat,
                              consumed: seq<bool>, done: LlmScan)
    requires ValidOrder(cs, order) && position < |order| && |entry| == |cs|
  {
    && position < next <= |order| && |consumed| == |cs|
    && SameFrom(cs, order, entry, consumed, next)
    && done.kept == Live(cs, order, consumed, position + 1, next)
    && spec == ResumeLlm(done,
         ScanLlm(text, rule, limit, tape, cs[order[position]], Live(cs, order, entry, next, |order|), done.content, done.processed))
  }

  function Passed(done: LlmScan, c: Candidate): LlmScan {
    done.(kept := done.kept + [c])
  }

  function Took(done: LlmScan, c: Candidate, content: string): LlmScan {
    done.(sources := done.sources + [c], asked := done.asked + [c.memory.id], content := content,
          processed := done.processed + 1)
  }

  function Opposed(done: LlmScan, l: Candidate, c: Candidate, description: string): LlmScan {
    done.(kept := done.kept + [c], asked := done.asked + [c.memory.id],
          contradictions := done.contradictions + [Contradiction(l.memory.id, c.memory.id, description)],
          processed := done.processed + 1)
  }

  lemma ResumePassOver(done: LlmScan, c: Candidate, r: LlmScanResult)
    ensures ResumeLlm(done, PassOver(c, r)) == ResumeLlm(Passed(done, c), r)
  {
    if r.Ok? {
      assert done.kept + ([c] + r.value.kept) == (done.kept + [c]) + r.value.kept;
    }
  }

  lemma ResumeTakeIn(done: LlmScan, c: Candidate, content: string, r: LlmScanResult)
    ensures ResumeLlm(done, TakeIn(c, r)) == ResumeLlm(Took(done, c, content), r)
  {
    if r.Ok? {
      var id := c.memory.id;
      assert done.sources + ([c] + r.value.sources) == (done.sources + [c]) + r.value.sources;
      assert done.asked + ([id] + r.value.asked) == (done.asked + [id]) + r.value.asked;
    }
  }

  lemma ResumeOppose(done: LlmScan, l: Candidate, c: Candidate, d: string, r: LlmScanResult)
    ensures ResumeLlm(done, Oppose(l, c, d, r)) == ResumeLlm(Opposed(done, l, c, d), r)
  {
    if r.Ok? {
      var id, action := c.memory.id, Contradiction(l.memory.id, c.memory.id, d);
      assert done.kept + ([c] + r.value.kept) == (done.kept + [c]) + r.value.kept;
      assert done.asked + ([id] + r.value.asked) == (done.asked + [id]) + r.value.asked;
      assert done.contradictions + ([action] + r.value.contradictions) == (done.contradictions + [action]) + r.value.contradictions;
    }
  }

  /** What one more candidate does to a scan. */
  lemma LlmScanStep(text: Text.Rules, rule: Rule, limit: Option<nat>, tape: Tape, l: Candidate, c: Candidate,
                    rest: seq<Candidate>, done: LlmScan)
    ensures var spec := ResumeLlm(done, ScanLlm(text, rule, limit, tape, l, [c] + rest, done.content, done.processed));
      match Compare(rule, l, c)
      case Err(e) => spec == Err(e)
      case Ok(false) => spec == ResumeLlm(Passed(done, c), ScanLlm(text, rule, limit, tape, l, rest, done.content, done.processed))
      case Ok(true) =>
        if BudgetSpent(limit, done.processed) then
          spec == Ok(done.(kept := done.kept + ([c] + rest), limitReached := true))
        else if tape(done.processed).Contradict? then
          spec == ResumeLlm(Opposed(done, l, c, tape(done.processed).description),
                            ScanLlm(text, rule, limit, tape, l, rest, done.content, done.processed + 1))
        else
          var content := MergedContent(text, rule, tape(done.processed), l, c, done.content);
          spec == ResumeLlm(Took(done, c, content), ScanLlm(text, rule, limit, tape, l, rest, content, done.processed + 1))
  {
    hide MergedContent, ResumeLlm, Passed, Took, Opposed, PassOver, TakeIn, Oppose;
    var others := [c] + rest;
    assert others[0] == c && others[1..] == rest;
    var similar := Compare(rule, l, c);
    if similar == Ok(false) {
      ResumePassOver(done, c, ScanLlm(text, rule, limit, tape, l, rest, done.content, done.processed));
    } else if similar == Ok(true) && !BudgetSpent(limit, done.processed) {
      var verdict := tape(done.processed);
      if verdict.Contradict? {
        ResumeOppose(done, l, c, verdict.description, ScanLlm(text, rule, limit, tape, l, rest, done.content, done.processed + 1));
      } else {
        var content := MergedContent(text, rule, verdict, l, c, done.content);
        ResumeTakeIn(done, c, content, ScanLlm(text, rule, limit, tape, l, rest, content, done.processed + 1));
      }
    } else if similar.Err? {
      ResumeError(done, similar.error);
    } else {
      ResumeStopped(done, others);
    }
  }

  lemma ResumeError(done: LlmScan, e: Similarity.SimilarityError)
    ensures ResumeLlm(done, Err(e)) == Err(e)
  {
  }

  lemma ResumeStopped(done: LlmScan, others: seq<Candidate>)
    ensures ResumeLlm(done, Ok(LlmScan([], others, [], [], done.content, done.processed, true))) ==
            Ok(done.(kept := done.kept + others, limitReached := true))
  {
    assert done.sources + [] == done.sources && done.asked + [] == done.asked;
    assert done.contradictions + [] == done.contradictions;
  }

  lemma ResumeFinished(done: LlmScan)
    requires !done.limitReached
    ensures ResumeLlm(done, Ok(LlmScan([], [], [], [], done.content, done.processed, false))) == Ok(done)
  {
    assert done.sources + [] == done.sources && done.asked + [] == done.asked && done.kept + [] == done.kept;
    assert done.contradictions + [] == done.contradictions;
  }

  lemma ResumeLlmFromStart(content: string, processed: nat, r: LlmScanResult)
    ensures ResumeLlm(LlmScan([], [], [], [], content, processed, false), r) == r
  {
    if r.Ok? {
      assert [] + r.value.sources == r.value.sources && [] + r.value.asked == r.value.asked;
      assert [] + r.value.kept == r.value.kept && [] + r.value.contradictions == r.value.contradictions;
    }
  }

  lemma LiveHead(cs: seq<Candidate>, order: seq<nat>, entry: seq<bool>, next: nat)
    requires ValidOrder(cs, order) && |entry| == |cs| && next < |order|
    ensures var rest := Live(cs, order, entry, next + 1, |order|);
      Live(cs, order, entry, next, |order|) == if entry[order[next]] then rest else [cs[order[next]]] + rest
  {
  }

  /** One turn of the inner loop, for each way it can go. */
  lemma LlmTurn(text: Text.Rules, rule: Rule, limit: Option<nat>, tape: Tape, cs: seq<Candidate>, order: seq<nat>,
                position: nat, entry: seq<bool>, spec: LlmScanResult, next: nat, consumed: seq<bool>, done: LlmScan)
    requires ValidOrder(cs, order) && position < |order| && |entry| == |cs| && next < |order|
    requires LlmProgress(text, rule, limit, tape, cs, order, position, entry, spec, next, consumed, done)
    ensures var l, c := cs[order[position]], cs[order[next]];
      if consumed[order[next]] then
        LlmProgress(text, rule, limit, tape, cs, order, position, entry, spec, next + 1, consumed, done)
      else match Compare(rule, l, c)
        case Err(e) => spec == Err(e)
        case Ok(false) =>
          LlmProgress(text, rule, limit, tape, cs, order, position, entry, spec, next + 1, consumed, Passed(done, c))
        case Ok(true) =>
          if BudgetSpent(limit, done.processed) then
            spec == Ok(done.(kept := done.kept + ([c] + Live(cs, order, entry, next + 1, |order|)), limitReached := true))
          else if tape(done.processed).Contradict? then
            LlmProgress(text, rule, limit, tape, cs, order, position, entry, spec, next + 1, consumed,
              Opposed(done, l, c, tape(done.processed).description))
          else
            LlmProgress(text, rule, limit, tape, cs, order, position, entry, spec, next + 1, consumed[order[next] := true],
              Took(done, c, MergedContent(text, rule, tape(done.processed), l, c, done.content)))
  {
    hide ScanLlm, MergedContent, ResumeLlm, Compare, BudgetSpent, Live;
    LiveHead(cs, order, entry, next);
    OnlyOnce(order, next);
    LiveStep(cs, order, consumed, consumed, position + 1, next);
    LiveStep(cs, order, consumed, consumed[order[next] := true], position + 1, next);
    LlmScanStep(text, rule, limit, tape, cs[order[position]], cs[order[next]], Live(cs, order, entry, next + 1, |order|), done);
  }

  datatype LlmVisit = LlmVisit(actions: seq<Action>, consumed: seq<bool>, processed: nat, limitReached: bool)

  /** One turn of the outer loop: the inner loop with the memory at order[position] as survivor, then its action. */
  method VisitSurvivorLlm(text: Text.Rules, rule: Rule, limit: Option<nat>, tape: Tape, cs: seq<Candidate>,
                          order: seq<nat>, position: nat, entry: seq<bool>, spent: nat)
    returns (r: Result<LlmVisit, Similarity.SimilarityError>, ghost scan: LlmScan)
    requires ValidOrder(cs, order) && position < |order| && |entry| == |cs|
    ensures r.Ok? ==> |r.value.consumed| == |cs|
    ensures var l := cs[order[position]];
      var spec := ScanLlm(text, rule, limit, tape, l, Live(cs, order, entry, position + 1, |order|), l.memory.content, spent);
      if r.Err? then spec == Err(r.error)
      else
        && spec == Ok(scan)
        && r.value.actions == LlmActions(rule, l, scan)
        && r.value.processed == scan.processed && r.value.limitReached == scan.limitReached
        && (!scan.limitReached ==> Live(cs, order, r.value.consumed, position + 1, |order|) == scan.kept)
  {
    hide ScanLlm, MergedContent, ResumeLlm, HighestScope, Ids;
    var l := cs[order[position]];
    ghost var spec := ScanLlm(text, rule, limit, tape, l, Live(cs, order, entry, position + 1, |order|), l.memory.content, spent);
    var consumed, processed, resultContent := entry, spent, l.memory.content;
    var sourceIds: seq<MemoryId>, highestScope := [], l.memory.scope;
    var actions: seq<Action> := [];
    ghost var done := LlmScan([], [], [], [], resultContent, processed, false);
    ResumeLlmFromStart(resultContent, processed, spec);
    NothingTaken(l.memory.scope);
    var next := position + 1;
    while next < |order|
      invariant LlmProgress(text, rule, limit, tape, cs, order, position, entry, spec, next, consumed, done)
      invariant sourceIds == Ids(done.sources) && highestScope == HighestScope(l.memory.scope, done.sources)
      invariant actions == done.contradictions && resultContent == done.content && processed == done.processed
      invariant !done.limitReached
    {
      var other := order[next];
      LlmTurn(text, rule, limit, tape, cs, order, position, entry, spec, next, consumed, done);
      if !consumed[other] {
        var candidate := cs[other];
        var similar := Compare(rule, l, candidate);
        if similar.Err? {
          return Err(similar.error), done;
        }
        if similar.value {
          if BudgetSpent(limit, processed) {
            scan := spec.value;
            return Ok(LlmVisit(actions + Pushed(rule, l.memory.(content := resultContent), sourceIds, highestScope),
                               consumed, processed, true)), scan;
          }
          var verdict := tape(processed);
          processed := processed + 1;
          if verdict.Contradict? {
            actions := actions + [Contradiction(l.memory.id, candidate.memory.id, verdict.description)];
            done := Opposed(done, l, candidate, verdict.description);
          } else {
            CollectStep(l.memory.scope, done.sources, candidate);
            resultContent := MergedContent(text, rule, verdict, l, candidate, resultContent);
            consumed := consumed[other := true];
            sourceIds := sourceIds + [candidate.memory.id];
            highestScope := highestScope.Max(candidate.memory.scope);
            done := Took(done, candidate, resultContent);
          }
        } else {
          done := Passed(done, candidate);
        }
      }
      next := next + 1;
    }
    scan := done;
    ScanNothing(text, rule, limit, tape, l, resultContent, processed);
    ResumeFinished(done);
    r := Ok(LlmVisit(actions + Pushed(rule, l.memory.(content := resultContent), sourceIds, highestScope), consumed, processed, false));
  }

  lemma ScanNothing(text: Text.Rules, rule: Rule, limit: Option<nat>, tape: Tape, l: Candidate, content: string, processed: nat)
    ensures ScanLlm(text, rule, limit, tape, l, [], content, processed) == Ok(LlmScan([], [], [], [], content, processed, false))
  {
  }

  /** What LlmConsolidator::consolidate answers for these memories and this sequence of provider answers. */
  function Llm(text: Text.Rules, rule: Rule, limit: Option<nat>, embed: string -> Option<Similarity.Embedding>,
               tape: Tape, memories: seq<Candidate>): LlmRunResult {
    RunLlm(text, rule, limit, tape, PriorityOrder(PrepareAllWith(embed, memories)), 0)
  }

  /** What a run answers; the questions it asked are not part of the answer. */
  function Reported(r: LlmRunResult): RunResult {
    if r.Err? then Err(r.error) else Ok(r.value.actions)
  }

  /** The whole of LlmConsolidator::consolidate. */
  method ConsolidateLlm(text: Text.Rules, rule: Rule, limit: Option<nat>, embed: string -> Option<Similarity.Embedding>,
                        tape: Tape, memories: seq<Candidate>)
    returns (r: RunResult)
    ensures r == Reported(Llm(text, rule, limit, embed, tape, memories))
  {
    hide RunLlm, ScanLlm, LlmActions, PriorityOrder, PairUp;
    var cs := PrepareAllWith(embed, memories);
    var order := VisitingOrder(cs);
    var consumed := seq(|cs|, _ => false);
    ghost var spec := Llm(text, rule, limit, embed, tape, memories);
    LiveAll(cs, order, consumed, 0);
    assert order[0..] == order;
    ThenNothing(spec);
    var processed, position: nat := 0, 0;
    var actions: seq<Action> := [];
    ghost var asked: seq<Pair> := [];
    while position < |order|
      invariant position <= |order| && |consumed| == |cs|
      invariant spec == Then(LlmOutcome(actions, asked),
        RunLlm(text, rule, limit, tape, Live(cs, order, consumed, position, |order|), processed))
    {
      var survivor := order[position];
      if !consumed[survivor] {
        LlmRunStep(text, rule, limit, tape, cs[survivor], Live(cs, order, consumed, position + 1, |order|), processed,
          LlmOutcome(actions, asked));
        ghost var scan;
        var visit;
        visit, scan := VisitSurvivorLlm(text, rule, limit, tape, cs, order, position, consumed, processed);
        if visit.Err? {
          return Err(visit.error);
        }
        asked := asked + PairUp(cs[survivor].memory.id, scan.asked);
        processed, consumed, actions := visit.value.processed, visit.value.consumed, actions + visit.value.actions;
        if visit.value.limitReached {
          return Ok(actions);
        }
      }
      position := position + 1;
    }
    r := Ok(actions);
    RunLlmNothing(text, rule, limit, tape, processed);
    assert actions + [] == actions && asked + [] == asked;
  }

  lemma RunLlmNothing(text: Text.Rules, rule: Rule, limit: Option<nat>, tape: Tape, processed: nat)
    ensures RunLlm(text, rule, limit, tape, [], processed) == Ok(LlmOutcome([], []))
  {
  }

  lemma ThenNothing(r: LlmRunResult)
    ensures Then(LlmOutcome([], []), r) == r
  {
    if r.Ok? {
      assert [] + r.value.actions == r.value.actions && [] + r.value.asked == r.value.asked;
    }
  }

  lemma ThenTwice(a: LlmOutcome, b: LlmOutcome, r: LlmRunResult)
    ensures Then(a, Then(b, r)) == Then(LlmOutcome(a.actions + b.actions, a.asked + b.asked), r)
  {
    if r.Ok? {
      assert a.actions + (b.actions + r.value.actions) == (a.actions + b.actions) + r.value.actions;
      assert a.asked + (b.asked + r.value.asked) == (a.asked + b.asked) + r.value.asked;
    }
  }

  /** One survivor's share of a run, added to what was collected before it. */
  lemma LlmRunStep(text: Text.Rules, rule: Rule, limit: Option<nat>, tape: Tape, l: Candidate, rest: seq<Candidate>,
                   spent: nat, done: LlmOutcome)
    ensures var run := Then(done, RunLlm(text, rule, limit, tape, [l] + rest, spent));
      match ScanLlm(text, rule, limit, tape, l, rest, l.memory.content, spent)
      case Err(e) => run == Err(e)
      case Ok(scan) =>
        var collected := LlmOutcome(done.actions + LlmActions(rule, l, scan), done.asked + PairUp(l.memory.id, scan.asked));
        run == if scan.limitReached then Ok(collected)
               else Then(collected, RunLlm(text, rule, limit, tape, scan.kept, scan.processed))
  {
    hide ScanLlm, LlmActions, PairUp;
    var xs := [l] + rest;
    assert xs[0] == l && xs[1..] == rest;
    var r := ScanLlm(text, rule, limit, tape, l, rest, l.memory.content, spent);
    if r.Ok? && !r.value.limitReached {
      ThenTwice(done, LlmOutcome(LlmActions(rule, l, r.value), PairUp(l.memory.id, r.value.asked)),
        RunLlm(text, rule, limit, tape, r.value.kept, r.value.processed));
    }
  }
}
