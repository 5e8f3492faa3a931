/**
 * The simple consolidation strategy: two nested greedy loops with a consumed vector, a pair budget and early
 * exit (plugins/memory/src/consolidator.rs, consolidate_with_simple_strategy).
 */
module SimpleStrategy {
  import opened Wrappers
  import opened Scopes
  import opened Candidates
  import Similarity

  function Vector(c: Candidate): Similarity.Embedding {
    if c.embedding.Some? then c.embedding.value else []
  }

  predicate SameZone(rule: Rule, l: Candidate, o: Candidate) {
    rule.crossScope || l.memory.scope == o.memory.scope
  }

  /** Whether two candidates may be merged and their similarity is at least the threshold, or why it has none. */
  function Compare(rule: Rule, l: Candidate, o: Candidate): Result<bool, Similarity.SimilarityError> {
    if !SameZone(rule, l, o) then Ok(false)
    else if |Vector(l)| != |Vector(o)| then Err(Similarity.DimensionMismatch(|Vector(l)|, |Vector(o)|))
    else if Vector(l) == [] then Err(Similarity.EmptyVectors)
    else Ok(rule.reaches(Vector(l), Vector(o)))
  }

  predicate BudgetSpent(limit: Option<nat>, processed: nat) {
    limit.Some? && processed >= limit.value
  }

  // ----- one survivor

  /** The inner loop: what the survivor takes, what it leaves, the pairs spent so far, and whether the budget ran out. */
  datatype Scan = Scan(sources: seq<Candidate>, kept: seq<Candidate>, processed: nat, limitReached: bool)

  type ScanResult = Result<Scan, Similarity.SimilarityError>

  function Keeping(c: Candidate, r: ScanResult): ScanResult {
    if r.Err? then r else Ok(r.value.(kept := [c] + r.value.kept))
  }

  function Taking(c: Candidate, r: ScanResult): ScanResult {
    if r.Err? then r else Ok(r.value.(sources := [c] + r.value.sources))
  }

  function ScanSimple(rule: Rule, limit: Option<nat>, l: Candidate, others: seq<Candidate>, processed: nat): (r: ScanResult)
    ensures r.Ok? ==> |r.value.kept| <= |others|
  {
    if others == [] then Ok(Scan([], [], processed, false))
    else match Compare(rule, l, others[0])
      case Err(e) => Err(e)
      case Ok(false) => Keeping(others[0], ScanSimple(rule, limit, l, others[1..], processed))
      case Ok(true) =>
        if BudgetSpent(limit, processed) then Ok(Scan([], others, processed, true))
        else Taking(others[0], ScanSimple(rule, limit, l, others[1..], processed + 1))
  }

  // ----- the action of one survivor

  function HighestScope(scope: MemoryScope, sources: seq<Candidate>): MemoryScope {
    if sources == [] then scope
    else HighestScope(scope, sources[..|sources| - 1]).Max(sources[|sources| - 1].memory.scope)
  }

  function Ids(cs: seq<Candidate>): (ids: seq<MemoryId>)
    ensures |ids| == |cs|
  {
    if cs == [] then [] else Ids(cs[..|cs| - 1]) + [cs[|cs| - 1].memory.id]
  }

  /** No action when nothing was taken; otherwise the survivor, in the highest scope when scopes are crossed. */
  function SimpleAction(rule: Rule, l: Candidate, sources: seq<Candidate>): seq<Action> {
    if sources == [] then []
    else
      var scope := if rule.crossScope then HighestScope(l.memory.scope, sources) else l.memory.scope;
      [Merged(Ids(sources), l.memory.(scope := scope))]
  }

  // ----- all survivors

  type RunResult = Result<seq<Action>, Similarity.SimilarityError>

  function After(done: seq<Action>, r: RunResult): RunResult {
    if r.Err? then r else Ok(done + r.value)
  }

  function RunSimple(rule: Rule, limit: Option<nat>, xs: seq<Candidate>, processed: nat): RunResult
    decreases |xs|
  {
    if xs == [] then Ok([])
    else match ScanSimple(rule, limit, xs[0], xs[1..], processed)
      case Err(e) => Err(e)
      case Ok(scan) =>
        var action := SimpleAction(rule, xs[0], scan.sources);
        if scan.limitReached then Ok(action)
        else After(action, RunSimple(rule, limit, scan.kept, scan.processed))
  }

  /** What SimpleConsolidator::consolidate answers for these memories. */
  function Simple(rule: Rule, limit: Option<nat>, memories: seq<Candidate>): RunResult {
    RunSimple(rule, limit, PriorityOrder(PrepareAll(memories)), 0)
  }

  // ----- the loops themselves

  /** What the loops need of a visiting order: positions of cs, none twice. */
  ghost predicate ValidOrder(cs: seq<Candidate>, order: seq<nat>) {
    && (forall k :: 0 <= k < |order| ==> order[k] < |cs|)
    && Distinct(order)
  }

  method VisitingOrder(cs: seq<Candidate>) returns (order: seq<nat>)
    ensures ValidOrder(cs, order) && Select(cs, order) == PriorityOrder(cs)
  {
    order := PrioritizedCandidates(cs);
    forall a, b | 0 <= a < b < |order| ensures order[a] != order[b] {
      assert Before(cs, order[a], order[b]);
    }
    SelectPriorityOrder(cs, order);
  }

  /** The candidates at positions order[p..q] that are not consumed. */
  ghost function Live(cs: seq<Candidate>, order: seq<nat>, consumed: seq<bool>, p: nat, q: nat): (xs: seq<Candidate>)
    requires |consumed| == |cs| && q <= |order| && ValidOrder(cs, order)
    decreases q - p
  {
    if p >= q then []
    else if consumed[order[p]] then Live(cs, order, consumed, p + 1, q)
    else [cs[order[p]]] + Live(cs, order, consumed, p + 1, q)
  }

  lemma {:induction false} LiveFrame(cs: seq<Candidate>, order: seq<nat>, before: seq<bool>, after: seq<bool>, p: nat, q: nat)
    requires |before| == |cs| && |after| == |cs| && q <= |order| && ValidOrder(cs, order)
    requires forall k :: p <= k < q ==> before[order[k]] == after[order[k]]
    ensures Live(cs, order, before, p, q) == Live(cs, order, after, p, q)
    decreases q - p
  {
    if p < q {
      LiveFrame(cs, order, before, after, p + 1, q);
    }
  }

  lemma {:induction false} LiveSplit(cs: seq<Candidate>, order: seq<nat>, consumed: seq<bool>, p: nat, m: nat, q: nat)
    requires |consumed| == |cs| && p <= m <= q <= |order| && ValidOrder(cs, order)
    ensures Live(cs, order, consumed, p, q) == Live(cs, order, consumed, p, m) + Live(cs, order, consumed, m, q)
    decreases m - p
  {
    if p < m {
      LiveSplit(cs, order, consumed, p + 1, m, q);
    }
  }

  lemma {:induction false} LiveAll(cs: seq<Candidate>, order: seq<nat>, consumed: seq<bool>, p: nat)
    requires |consumed| == |cs| && p <= |order| && ValidOrder(cs, order)
    requires forall i :: 0 <= i < |cs| ==> !consumed[i]
    ensures Live(cs, order, consumed, p, |order|) == Select(cs, order[p..])
    decreases |order| - p
  {
    if p < |order| {
      LiveAll(cs, order, consumed, p + 1);
      assert order[p..][1..] == order[p + 1..];
    }
  }

  /** One more position: passed over, taken, or already consumed. */
  lemma LiveStep(cs: seq<Candidate>, order: seq<nat>, before: seq<bool>, after: seq<bool>, p: nat, next: nat)
    requires |before| == |cs| && |after| == |cs| && p <= next < |order| && ValidOrder(cs, order)
    requires forall k :: p <= k < next ==> before[order[k]] == after[order[k]]
    ensures Live(cs, order, after, p, next + 1) ==
      Live(cs, order, before, p, next) + if after[order[next]] then [] else [cs[order[next]]]
  {
    LiveSplit(cs, order, after, p, next, next + 1);
    LiveFrame(cs, order, before, after, p, next);
    assert Live(cs, order, after, next + 1, next + 1) == [];
  }

  /** What is left of a scan after `sources` were taken and `kept` were passed over. */
  ghost function Resume(sources: seq<Candidate>, kept: seq<Candidate>, r: ScanResult): ScanResult {
    if r.Err? then r
    else Ok(r.value.(sources := sources + r.value.sources, kept := kept + r.value.kept))
  }

  lemma ResumeFromStart(r: ScanResult)
    ensures Resume([], [], r) == r
  {
    if r.Ok? {
      assert [] + r.value.sources == r.value.sources && [] + r.value.kept == r.value.kept;
    }
  }

  /** What one more candidate does to a scan. */
  lemma ScanStep(rule: Rule, limit: Option<nat>, l: Candidate, c: Candidate, rest: seq<Candidate>, processed: nat,
                 sources: seq<Candidate>, kept: seq<Candidate>)
    ensures var spec := Resume(sources, kept, ScanSimple(rule, limit, l, [c] + rest, processed));
      match Compare(rule, l, c)
      case Err(e) => spec == Err(e)
      case Ok(false) => spec == Resume(sources, kept + [c], ScanSimple(rule, limit, l, rest, processed))
      case Ok(true) =>
        spec == if BudgetSpent(limit, processed) then Ok(Scan(sources, kept + ([c] + rest), processed, true))
                else Resume(sources + [c], kept, ScanSimple(rule, limit, l, rest, processed + 1))
  {
    var others := [c] + rest;
    assert others[0] == c && others[1..] == rest;
    var similar := Compare(rule, l, c);
    if similar == Ok(false) {
      var r := ScanSimple(rule, limit, l, rest, processed);
      if r.Ok? {
        assert kept + ([c] + r.value.kept) == (kept + [c]) + r.value.kept;
      }
    } else if similar == Ok(true) && !BudgetSpent(limit, processed) {
      var r := ScanSimple(rule, limit, l, rest, processed + 1);
      if r.Ok? {
        assert sources + ([c] + r.value.sources) == (sources + [c]) + r.value.sources;
      }
    } else {
      assert sources + [] == sources;
    }
  }

  lemma CollectStep(scope: MemoryScope, sources: seq<Candidate>, c: Candidate)
    ensures Ids(sources + [c]) == Ids(sources) + [c.memory.id]
    ensures HighestScope(scope, sources + [c]) == HighestScope(scope, sources).Max(c.memory.scope)
  {
    var all := sources + [c];
    assert all[..|all| - 1] == sources;
  }

  /** Two consumed vectors agree on the positions order[p..]. */
  ghost predicate SameFrom(cs: seq<Candidate>, order: seq<nat>, before: seq<bool>, after: seq<bool>, p: nat)
    requires ValidOrder(cs, order) && |before| == |cs| && |after| == |cs|
  {
    forall k :: p <= k < |order| ==> before[order[k]] == after[order[k]]
  }

  lemma OnlyOnce(order: seq<nat>, p: nat)
    requires Distinct(order) && p < |order|
    ensures forall k :: p < k < |order| ==> order[k] != order[p]
  {
  }

  datatype Visit = Visit(actions: seq<Action>, consumed: seq<bool>, processed: nat, limitReached: bool)

  /** The action that the loop pushes from what it collected. */
  function Pushed(rule: Rule, survivor: Memory, sourceIds: seq<MemoryId>, highestScope: MemoryScope): seq<Action> {
    if sourceIds == [] then []
    else [Merged(sourceIds, if rule.crossScope then survivor.(scope := highestScope) else survivor)]
  }

  /** The inner loop's invariant before it looks at order[next]. */
  ghost predicate Progress(rule: Rule, limit: Option<nat>, cs: seq<Candidate>, order: seq<nat>, position: nat,
                           entry: seq<bool>, spec: ScanResult, next: nat, consumed: seq<bool>, processed: nat,
                           sources: seq<Candidate>, kept: seq<Candidate>)
    requires ValidOrder(cs, order) && position < |order| && |entry| == |cs|
  {
    && position < next <= |order| && |consumed| == |cs|
    && SameFrom(cs, order, entry, consumed, next)
    && kept == Live(cs, order, consumed, position + 1, next)
    && spec == Resume(sources, kept,
         ScanSimple(rule, limit, cs[order[position]], Live(cs, order, entry, next, |order|), processed))
  }

  /** One turn of the inner loop, for each way it can go. */
  lemma Turn(rule: Rule, limit: Option<nat>, cs: seq<Candidate>, order: seq<nat>, position: nat,
             entry: seq<bool>, spec: ScanResult, next: nat, consumed: seq<bool>, processed: nat,
             sources: seq<Candidate>, kept: seq<Candidate>)
    requires ValidOrder(cs, order) && position < |order| && |entry| == |cs| && next < |order|
    requires Progress(rule, limit, cs, order, position, entry, spec, next, consumed, processed, sources, kept)
    ensures var c := cs[order[next]];
      if consumed[order[next]] then
        Progress(rule, limit, cs, order, position, entry, spec, next + 1, consumed, processed, sources, kept)
      else match Compare(rule, cs[order[position]], c)
        case Err(e) => spec == Err(e)
        case Ok(false) =>
          Progress(rule, limit, cs, order, position, entry, spec, next + 1, consumed, processed, sources, kept + [c])
        case Ok(true) =>
          if BudgetSpent(limit, processed) then
            spec == Ok(Scan(sources, kept + ([c] + Live(cs, order, entry, next + 1, |order|)), processed, true))
          else
            Progress(rule, limit, cs, order, position, entry, spec, next + 1, consumed[order[next] := true],
              processed + 1, sources + [c], kept)
  {
    OnlyOnce(order, next);
    LiveStep(cs, order, consumed, consumed, position + 1, next);
    LiveStep(cs, order, consumed, consumed[order[next] := true], position + 1, next);
    ScanStep(rule, limit, cs[order[position]], cs[order[next]], Live(cs, order, entry, next + 1, |order|), processed,
      sources, kept);
  }

  lemma BeginScan(rule: Rule, limit: Option<nat>, cs: seq<Candidate>, order: seq<nat>, position: nat, entry: seq<bool>, spent: nat)
    requires ValidOrder(cs, order) && position < |order| && |entry| == |cs|
    ensures var spec := ScanSimple(rule, limit, cs[order[position]], Live(cs, order, entry, position + 1, |order|), spent);
      Progress(rule, limit, cs, order, position, entry, spec, position + 1, entry, spent, [], [])
  {
    hide ScanSimple;
    ResumeFromStart(ScanSimple(rule, limit, cs[order[position]], Live(cs, order, entry, position + 1, |order|), spent));
  }

  lemma EndScan(rule: Rule, limit: Option<nat>, cs: seq<Candidate>, order: seq<nat>, position: nat,
                entry: seq<bool>, spec: ScanResult, consumed: seq<bool>, processed: nat,
                sources: seq<Candidate>, kept: seq<Candidate>)
    requires ValidOrder(cs, order) && position < |order| && |entry| == |cs|
    requires Progress(rule, limit, cs, order, position, entry, spec, |order|, consumed, processed, sources, kept)
    ensures spec == Ok(Scan(sources, kept, processed, false))
    ensures Live(cs, order, consumed, position + 1, |order|) == kept
  {
    assert sources + [] == sources && kept + [] == kept;
  }

  lemma NothingTaken(scope: MemoryScope)
    ensures Ids([]) == [] && HighestScope(scope, []) == scope
  {
  }

  lemma InRange(cs: seq<Candidate>, order: seq<nat>, k: nat)
    requires ValidOrder(cs, order) && k < |order|
    ensures order[k] < |cs|
  {
  }

  lemma PushedIsAction(rule: Rule, l: Candidate, sources: seq<Candidate>)
    ensures Pushed(rule, l.memory, Ids(sources), HighestScope(l.memory.scope, sources)) == SimpleAction(rule, l, sources)
  {
  }

  /** One turn of the outer loop: the inner loop with the memory at order[position] as survivor, then its action. */
  method VisitSurvivor(rule: Rule, limit: Option<nat>, cs: seq<Candidate>, order: seq<nat>, position: nat,
                       entry: seq<bool>, spent: nat)
    returns (r: Result<Visit, Similarity.SimilarityError>, ghost scan: Scan)
    requires ValidOrder(cs, order) && position < |order| && |entry| == |cs|
    ensures r.Ok? ==> |r.value.consumed| == |cs|
    ensures var spec := ScanSimple(rule, limit, cs[order[position]], Live(cs, order, entry, position + 1, |order|), spent);
      if r.Err? then spec == Err(r.error)
      else
        && spec == Ok(scan)
        && r.value.actions == SimpleAction(rule, cs[order[position]], scan.sources)
        && r.value.processed == scan.processed && r.value.limitReached == scan.limitReached
        && (!scan.limitReached ==> Live(cs, order, r.value.consumed, position + 1, |order|) == scan.kept)
  {
    hide Progress, ScanSimple, Live, Resume, SimpleAction, Pushed, Ids, HighestScope, Compare, ValidOrder;
    InRange(cs, order, position);
    var survivor := cs[order[position]];
    ghost var spec := ScanSimple(rule, limit, survivor, Live(cs, order, entry, position + 1, |order|), spent);
    ghost var sources, kept: seq<Candidate> := [], [];
    BeginScan(rule, limit, cs, order, position, entry, spent);
    NothingTaken(survivor.memory.scope);
    var consumed, processed := entry, spent;
    var sourceIds: seq<MemoryId>, highestScope := [], survivor.memory.scope;
    var next := position + 1;
    while next < |order|
      invariant position < next <= |order| && |consumed| == |cs|
      invariant Progress(rule, limit, cs, order, position, entry, spec, next, consumed, processed, sources, kept)
      invariant sourceIds == Ids(sources) && highestScope == HighestScope(survivor.memory.scope, sources)
    {
      var other := order[next];
      InRange(cs, order, next);
      Turn(rule, limit, cs, order, position, entry, spec, next, consumed, processed, sources, kept);
      if !consumed[other] {
        var candidate := cs[other];
        var similar := Compare(rule, survivor, candidate);
        if similar.Err? {
          return Err(similar.error), Scan([], [], 0, false);
        }
        if similar.value {
          if BudgetSpent(limit, processed) {
            scan := spec.value;
            PushedIsAction(rule, survivor, sources);
            return Ok(Visit(Pushed(rule, survivor.memory, sourceIds, highestScope), consumed, processed, true)), scan;
          }
          processed := processed + 1;
          consumed := consumed[other := true];
          CollectStep(survivor.memory.scope, sources, candidate);
          sourceIds := sourceIds + [candidate.memory.id];
          highestScope := highestScope.Max(candidate.memory.scope);
          sources := sources + [candidate];
        } else {
          kept := kept + [candidate];
        }
      }
      next := next + 1;
    }
    scan := Scan(sources, kept, processed, false);
    EndScan(rule, limit, cs, order, position, entry, spec, consumed, processed, sources, kept);
    PushedIsAction(rule, survivor, sources);
    r := Ok(Visit(Pushed(rule, survivor.memory, sourceIds, highestScope), consumed, processed, false));
  }

  /** The whole of consolidate_with_simple_strategy. */
  method ConsolidateSimple(rule: Rule, limit: Option<nat>, memories: seq<Candidate>) returns (r: RunResult)
    ensures r == Simple(rule, limit, memories)
  {
    var cs := PrepareAll(memories);
    var order := VisitingOrder(cs);
    var consumed := seq(|cs|, _ => false);
    ghost var spec := Simple(rule, limit, memories);
    LiveAll(cs, order, consumed, 0);
    assert order[0..] == order;
    AfterNothing(spec);
    var processed, actions, position: nat := 0, [], 0;
    while position < |order|
      invariant position <= |order| && |consumed| == |cs|
      invariant spec == After(actions, RunSimple(rule, limit, Live(cs, order, consumed, position, |order|), processed))
    {
      var survivor := order[position];
      if !consumed[survivor] {
        RunStep(rule, limit, cs[survivor], Live(cs, order, consumed, position + 1, |order|), processed, actions);
        ghost var scan;
        var visit;
        visit, scan := VisitSurvivor(rule, limit, cs, order, position, consumed, processed);
        if visit.Err? {
          return Err(visit.error);
        }
        processed, consumed, actions := visit.value.processed, visit.value.consumed, actions + visit.value.actions;
        if visit.value.limitReached {
          return Ok(actions);
        }
      }
      position := position + 1;
    }
    r := Ok(actions);
    assert actions + [] == actions;
  }

  /** One survivor's share of a run, added to the actions collected before it. */
  lemma RunStep(rule: Rule, limit: Option<nat>, l: Candidate, rest: seq<Candidate>, spent: nat, done: seq<Action>)
    ensures var run := After(done, RunSimple(rule, limit, [l] + rest, spent));
      match ScanSimple(rule, limit, l, rest, spent)
      case Err(e) => run == Err(e)
      case Ok(scan) =>
        var collected := done + SimpleAction(rule, l, scan.sources);
        run == if scan.limitReached then Ok(collected)
                  else After(collected, RunSimple(rule, limit, scan.kept, scan.processed))
  {
    var xs := [l] + rest;
    assert xs[0] == l && xs[1..] == rest;
    var r := ScanSimple(rule, limit, l, rest, spent);
    if r.Ok? && !r.value.limitReached {
      AfterTwice(done, SimpleAction(rule, l, r.value.sources), RunSimple(rule, limit, r.value.kept, r.value.processed));
    }
  }

  lemma AfterNothing(r: RunResult)
    ensures After([], r) == r
  {
    if r.Ok? {
      assert [] + r.value == r.value;
    }
  }

  lemma AfterTwice(a: seq<Action>, b: seq<Action>, r: RunResult)
    ensures After(a, After(b, r)) == After(a + b, r)
  {
    if r.Ok? {
      assert a + (b + r.value) == (a + b) + r.value;
    }
  }
}
