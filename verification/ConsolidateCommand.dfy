/** The apply loop of the consolidate command (plugins/memory/src/cli.rs, execute_consolidate_command). */
module ConsolidateCommand {
  import opened Wrappers
  import opened Scopes
  import opened Candidates
  import opened Clusters
  import opened ClusterFacts
  import opened Confluence
  import opened LlmFacts
  import Text

  datatype ApplyError =
    | NotFound(id: MemoryId)
    | CannotPromote(id: MemoryId)
    | LogicallyDeleted(id: MemoryId)
    | SameMemory(id: MemoryId)
    | BlankDescription

  datatype Report = Report(mergedIds: seq<MemoryId>, contradictionCount: nat)

  ghost predicate Has(cs: seq<Candidate>, id: MemoryId) {
    exists c :: c in cs && c.memory.id == id
  }

  /** A memory that can be made dormant, dormant ones included. */
  ghost predicate CanRetire(cs: seq<Candidate>, id: MemoryId) {
    exists c :: c in cs && c.memory.id == id && c.memory.state != Deleted
  }

  ghost predicate CanMove(cs: seq<Candidate>, result: Memory) {
    forall c :: c in cs && c.memory.id == result.id ==>
      c.memory.scope == result.scope || c.memory.scope.CanPromoteTo(result.scope)
  }

  /**
   * What the store accepts: a known survivor whose scope is the present one or a broader one, with sources that are
   * known and not deleted; or a described contradiction between two known memories.
   */
  ghost predicate Accepts(text: Text.Rules, cs: seq<Candidate>, a: Action) {
    match a
    case Merged(ids, result) => Has(cs, result.id) && CanMove(cs, result) && forall id :: id in ids ==> CanRetire(cs, id)
    case Contradiction(x, y, description) => x != y && Text.Trim(text, description) != "" && Has(cs, x) && Has(cs, y)
  }

  /** Why an action is refused. */
  ghost predicate Explains(text: Text.Rules, cs: seq<Candidate>, a: Action, error: ApplyError) {
    match error
    case NotFound(id) =>
      && !Has(cs, id)
      && (a.Merged? ==> id == a.result.id || id in a.sourceIds)
      && (a.Contradiction? ==> id in {a.memoryA, a.memoryB})
    case CannotPromote(id) => a.Merged? && id == a.result.id && !CanMove(cs, a.result)
    case LogicallyDeleted(id) => a.Merged? && id in a.sourceIds && Has(cs, id) && !CanRetire(cs, id)
    case SameMemory(id) => a.Contradiction? && a.memoryA == a.memoryB == id
    case BlankDescription => a.Contradiction? && Text.Trim(text, a.description) == ""
  }

  function AfterAction(a: Action, cs: seq<Candidate>): (r: seq<Candidate>)
    ensures |r| == |cs| && forall i :: 0 <= i < |cs| ==> r[i] == ApplyAction(a, cs[i])
  {
    seq(|cs|, i requires 0 <= i < |cs| => ApplyAction(a, cs[i]))
  }

  /** What a refused action has written: the survivor's text before its scope, and both before the sources up to a bad one. */
  ghost predicate LeftBehind(a: Action, cs: seq<Candidate>, after: seq<Candidate>) {
    match a
    case Contradiction(_, _, _) => after == cs
    case Merged(ids, result) =>
      if !Has(cs, result.id) then after == cs
      else if !CanMove(cs, result) then after == Rewritten(result, cs)
      else exists k :: 0 <= k < |ids| && RefusesFrom(cs, ids, k) && after == AfterAction(Merged(ids[..k], result), cs)
  }

  /** ids[k] is the first that cannot be made dormant. */
  ghost predicate RefusesFrom(cs: seq<Candidate>, ids: seq<MemoryId>, k: nat) {
    k < |ids| && !CanRetire(cs, ids[k]) && forall id :: id in ids[..k] ==> CanRetire(cs, id)
  }

  /** Every action is acceptable when its turn comes. */
  ghost predicate Applicable(text: Text.Rules, cs: seq<Candidate>, actions: seq<Action>)
    decreases |actions|
  {
    actions == [] || (Accepts(text, cs, actions[0]) && Applicable(text, AfterAction(actions[0], cs), actions[1..]))
  }

  /** Action i is the first that is refused, and the store is what it and the actions before it have left. */
  ghost predicate StopsAt(text: Text.Rules, cs: seq<Candidate>, actions: seq<Action>, i: nat, error: ApplyError, after: seq<Candidate>) {
    && i < |actions| && Applicable(text, cs, actions[..i])
    && var before := Applied(actions[..i], cs);
       && !Accepts(text, before, actions[i]) && Explains(text, before, actions[i], error)
       && LeftBehind(actions[i], before, after)
  }

  function MergedIds(actions: seq<Action>): seq<MemoryId> {
    if actions == [] then []
    else match actions[0]
      case Merged(_, result) => [result.id] + MergedIds(actions[1..])
      case Contradiction(_, _, _) => MergedIds(actions[1..])
  }

  lemma {:induction false} MergedIdsSnoc(actions: seq<Action>, a: Action)
    ensures MergedIds(actions + [a]) == MergedIds(actions) + if a.Merged? then [a.result.id] else []
  {
    if actions != [] {
      assert (actions + [a])[1..] == actions[1..] + [a];
      MergedIdsSnoc(actions[1..], a);
    }
  }

  class MemoryTable {
    const text: Text.Rules
    var memories: seq<Candidate>
    var supersedes: seq<Pair>
    var contradictions: seq<Pair>

    constructor (text: Text.Rules, memories: seq<Candidate>)
      ensures this.text == text && this.memories == memories && supersedes == [] && contradictions == []
    {
      this.text, this.memories, supersedes, contradictions := text, memories, [], [];
    }

    method Lookup(id: MemoryId) returns (found: Option<Memory>)
      ensures found.None? <==> !Has(memories, id)
      ensures found.Some? ==> exists c :: c in memories && c.memory.id == id && c.memory == found.value
    {
      for i := 0 to |memories|
        invariant forall j :: 0 <= j < i ==> memories[j].memory.id != id
      {
        if memories[i].memory.id == id {
          assert memories[i] in memories;
          return Some(memories[i].memory);
        }
      }
      return None;
    }

    /** One merge: write the survivor's text, then its scope, then retire its sources one after another. */
    method ApplyMerge(sourceIds: seq<MemoryId>, result: Memory) returns (error: Option<ApplyError>)
      requires DistinctIds(memories)
      modifies this`memories, this`supersedes
      ensures error.None? <==> Accepts(text, old(memories), Merged(sourceIds, result))
      ensures error.None? ==> memories == AfterAction(Merged(sourceIds, result), old(memories))
      ensures error.None? ==> supersedes == old(supersedes) + PairUp(result.id, sourceIds)
      ensures error.Some? ==> Explains(text, old(memories), Merged(sourceIds, result), error.value)
      ensures error.Some? ==> LeftBehind(Merged(sourceIds, result), old(memories), memories)
    {
      hide ApplyAction, AfterAction, Retired, Rewritten, Rescoped, PairUp, CanRetire, DistinctIds;
      var current := Lookup(result.id);
      if current.None? {
        return Some(NotFound(result.id));
      }
      ghost var before := memories;
      TheOnlyOne(before, result, current.value);
      memories := Rewritten(result, memories);
      if current.value.scope != result.scope && !current.value.scope.CanPromoteTo(result.scope) {
        return Some(CannotPromote(result.id));
      }
      memories := Rescoped(result, memories);
      NothingRetired(result, before);
      for k := 0 to |sourceIds|
        invariant memories == AfterAction(Merged(sourceIds[..k], result), before)
        invariant forall id :: id in sourceIds[..k] ==> CanRetire(before, id)
        invariant supersedes == old(supersedes) + PairUp(result.id, sourceIds[..k])
      {
        var id := sourceIds[k];
        assert id in sourceIds;
        SameIds(Merged(sourceIds[..k], result), before, id);
        assert sourceIds[..k + 1] == sourceIds[..k] + [id];
        var known := Lookup(id);
        RetiresAlike(sourceIds[..k], result, before, id, known);
        if known.None? {
          return Some(NotFound(id));
        }
        if known.value.state == Deleted {
          return Some(LogicallyDeleted(id));
        }
        Retire(id, sourceIds[..k], result, before);
        memories := Retired(id, memories);
        supersedes := supersedes + [(result.id, id)];
        PairUpSnoc(result.id, sourceIds[..k], id);
      }
      assert sourceIds[..|sourceIds|] == sourceIds;
      error := None;
    }

    method ApplyContradiction(a: MemoryId, b: MemoryId, description: string) returns (error: Option<ApplyError>)
      modifies this`contradictions
      ensures error.None? <==> Accepts(text, memories, Contradiction(a, b, description))
      ensures contradictions == old(contradictions) + if error.None? then [(a, b)] else []
      ensures error.Some? ==> Explains(text, memories, Contradiction(a, b, description), error.value)
    {
      if a == b {
        return Some(SameMemory(a));
      }
      if Text.Trim(text, description) == "" {
        return Some(BlankDescription);
      }
      var first := Lookup(a);
      if first.None? {
        return Some(NotFound(a));
      }
      var second := Lookup(b);
      if second.None? {
        return Some(NotFound(b));
      }
      contradictions := contradictions + [(a, b)];
      error := None;
    }

    /** The whole loop. A dry run only reports. */
    method Execute(actions: seq<Action>, dryRun: bool) returns (r: Result<Report, ApplyError>)
      requires DistinctIds(memories)
      modifies this
      ensures dryRun ==> r.Ok? && memories == old(memories) && supersedes == old(supersedes) && contradictions == old(contradictions)
      ensures !dryRun ==> (r.Ok? <==> Applicable(text, old(memories), actions))
      ensures !dryRun && r.Ok? ==> memories == Applied(actions, old(memories))
      ensures !dryRun && r.Ok? ==> supersedes == old(supersedes) + ActionPairs(actions)
      ensures !dryRun && r.Ok? ==> contradictions == old(contradictions) + ContradictionPairs(actions)
      ensures r.Err? ==> exists i :: StopsAt(text, old(memories), actions, i, r.error, memories)
      ensures r.Ok? ==> r.value.mergedIds == MergedIds(actions)
      ensures r.Ok? ==> r.value.contradictionCount + |r.value.mergedIds| == |actions|
    {
      hide Accepts, AfterAction, Applied, ActionPairs, ContradictionPairs, MergedIds, DistinctIds, PairUp, Explains, LeftBehind;
      NothingDone(memories);
      ghost var start := memories;
      var mergedIds: seq<MemoryId>, contradictionCount: nat := [], 0;
      for i := 0 to |actions|
        invariant DistinctIds(memories)
        invariant dryRun ==> memories == start && supersedes == old(supersedes) && contradictions == old(contradictions)
        invariant !dryRun ==> memories == Applied(actions[..i], start)
        invariant !dryRun ==> Applicable(text, start, actions[..i])
        invariant !dryRun ==> (Applicable(text, start, actions) <==> Applicable(text, memories, actions[i..]))
        invariant !dryRun ==> supersedes == old(supersedes) + ActionPairs(actions[..i])
        invariant !dryRun ==> contradictions == old(contradictions) + ContradictionPairs(actions[..i])
        invariant mergedIds == MergedIds(actions[..i]) && contradictionCount + |mergedIds| == i
      {
        var action := actions[i];
        assert actions[..i + 1] == actions[..i] + [action];
        assert actions[i..][1..] == actions[i + 1..];
        MergedIdsSnoc(actions[..i], action);
        ActionPairsAppend(actions[..i], [action]);
        ContradictionPairsAppend(actions[..i], [action]);
        OneActionPairs(action);
        AppliedSnoc(actions[..i], action, start);
        AfterDistinct(action, memories);
        ghost var before := memories;
        var error := None;
        match action {
          case Merged(sourceIds, result) =>
            mergedIds := mergedIds + [result.id];
            if !dryRun {
              error := ApplyMerge(sourceIds, result);
            }
          case Contradiction(a, b, description) =>
            contradictionCount := contradictionCount + 1;
            NothingApplied(action, memories);
            if !dryRun {
              error := ApplyContradiction(a, b, description);
            }
        }
        if error.Some? {
          assert StopsAt(text, start, actions, i, error.value, memories);
          return Err(error.value);
        }
        if !dryRun {
          ApplicableSnoc(text, start, actions[..i], action);
        }
      }
      assert actions[..|actions|] == actions && actions[|actions|..] == [];
      r := Ok(Report(mergedIds, contradictionCount));
    }
  }

  lemma NothingDone(cs: seq<Candidate>)
    ensures Applied([], cs) == cs && ActionPairs([]) == [] && ContradictionPairs([]) == [] && MergedIds([]) == []
  {
  }

  function Rewritten(result: Memory, cs: seq<Candidate>): (r: seq<Candidate>)
    ensures |r| == |cs|
  {
    seq(|cs|, i requires 0 <= i < |cs| =>
      if cs[i].memory.id == result.id then cs[i].(memory := cs[i].memory.(content := result.content)) else cs[i])
  }

  function Rescoped(result: Memory, cs: seq<Candidate>): (r: seq<Candidate>)
    ensures |r| == |cs|
  {
    seq(|cs|, i requires 0 <= i < |cs| =>
      if cs[i].memory.id == result.id then cs[i].(memory := cs[i].memory.(scope := result.scope)) else cs[i])
  }

  function Retired(id: MemoryId, cs: seq<Candidate>): (r: seq<Candidate>)
    ensures |r| == |cs|
  {
    seq(|cs|, i requires 0 <= i < |cs| =>
      if cs[i].memory.id == id then cs[i].(memory := cs[i].memory.(state := Dormant)) else cs[i])
  }

  lemma TheOnlyOne(cs: seq<Candidate>, result: Memory, m: Memory)
    requires DistinctIds(cs) && m.id == result.id && exists c :: c in cs && c.memory == m
    ensures CanMove(cs, result) <==> m.scope == result.scope || m.scope.CanPromoteTo(result.scope)
  {
    var d :| d in cs && d.memory == m;
    forall c | c in cs && c.memory.id == result.id ensures c == d {
      SameIdSame(cs, c, d);
    }
  }

  lemma Retire(id: MemoryId, done: seq<MemoryId>, result: Memory, cs: seq<Candidate>)
    ensures Retired(id, AfterAction(Merged(done, result), cs)) == AfterAction(Merged(done + [id], result), cs)
  {
  }

  lemma NothingRetired(result: Memory, cs: seq<Candidate>)
    ensures forall sourceIds: seq<MemoryId> ::
              AfterAction(Merged(sourceIds[..0], result), cs) == Rescoped(result, Rewritten(result, cs))
  {
  }

  lemma SameIds(a: Action, cs: seq<Candidate>, id: MemoryId)
    ensures Has(AfterAction(a, cs), id) <==> Has(cs, id)
  {
    var ds := AfterAction(a, cs);
    if c :| c in cs && c.memory.id == id {
      var i :| 0 <= i < |cs| && cs[i] == c;
      assert ds[i] in ds;
    }
  }

  /** Whether the next source can be retired shows in the store as it was, too. */
  lemma RetiresAlike(done: seq<MemoryId>, result: Memory, cs: seq<Candidate>, id: MemoryId, found: Option<Memory>)
    requires DistinctIds(cs) && forall d :: d in done ==> CanRetire(cs, d)
    requires found.None? ==> !Has(cs, id)
    requires var ds := AfterAction(Merged(done, result), cs);
      found.Some? ==> exists c :: c in ds && c.memory.id == id && c.memory == found.value
    ensures CanRetire(cs, id) <==> found.Some? && found.value.state != Deleted
  {
    if found.Some? {
      var ds := AfterAction(Merged(done, result), cs);
      var d :| d in ds && d.memory.id == id && d.memory == found.value;
      var i :| 0 <= i < |ds| && ds[i] == d;
      assert cs[i] in cs && cs[i].memory.id == id;
      forall c | c in cs && c.memory.id == id ensures c == cs[i] {
        SameIdSame(cs, c, cs[i]);
      }
    }
  }

  lemma PairUpSnoc(id: MemoryId, xs: seq<MemoryId>, x: MemoryId)
    ensures PairUp(id, xs + [x]) == PairUp(id, xs) + [(id, x)]
  {
  }

  lemma AfterDistinct(a: Action, cs: seq<Candidate>)
    requires DistinctIds(cs)
    ensures DistinctIds(AfterAction(a, cs))
  {
  }

  lemma NothingApplied(a: Action, cs: seq<Candidate>)
    requires a.Contradiction?
    ensures AfterAction(a, cs) == cs && forall after :: LeftBehind(a, cs, after) <==> after == cs
  {
  }

  lemma OneActionPairs(a: Action)
    ensures ActionPairs([a]) == if a.Merged? then PairUp(a.result.id, a.sourceIds) else []
    ensures ContradictionPairs([a]) == if a.Merged? then [] else [(a.memoryA, a.memoryB)]
  {
    assert [a][1..] == [];
  }

  lemma AppliedSnoc(actions: seq<Action>, a: Action, cs: seq<Candidate>)
    ensures Applied(actions + [a], cs) == AfterAction(a, Applied(actions, cs))
  {
    forall i | 0 <= i < |cs| ensures ApplyActions(actions + [a], cs[i]) == ApplyAction(a, ApplyActions(actions, cs[i])) {
      ApplyAppend(actions, [a], cs[i]);
      assert [a][1..] == [];
    }
  }

  lemma AppliedCons(a: Action, actions: seq<Action>, cs: seq<Candidate>)
    ensures Applied([a] + actions, cs) == Applied(actions, AfterAction(a, cs))
  {
    assert ([a] + actions)[1..] == actions;
  }

  lemma {:induction false} ApplicableSnoc(text: Text.Rules, cs: seq<Candidate>, actions: seq<Action>, a: Action)
    requires Applicable(text, cs, actions) && Accepts(text, Applied(actions, cs), a)
    ensures Applicable(text, cs, actions + [a])
    decreases |actions|
  {
    hide Accepts, AfterAction, Applied;
    if actions == [] {
      NothingDone(cs);
      assert [] + [a] == [a] && [a][1..] == [];
    } else {
      assert (actions + [a])[1..] == actions[1..] + [a];
      assert actions == [actions[0]] + actions[1..];
      AppliedCons(actions[0], actions[1..], cs);
      ApplicableSnoc(text, AfterAction(actions[0], cs), actions[1..], a);
    }
  }
}
