/**
 * Applying a run's actions to the store has exactly the effect of the pairs it merged
 * (plugins/memory/src/consolidator.rs; plugins/memory/src/cli.rs, execute_consolidate_command).
 */
module Confluence {
  import opened Wrappers
  import opened Scopes
  import opened Candidates
  import opened SimpleStrategy
  import opened Clusters
  import opened ClusterFacts

  // ----- applying actions to the store (plugins/memory/src/cli.rs, execute_consolidate_command)

  function ApplyAction(a: Action, c: Candidate): Candidate {
    match a
    case Merged(ids, result) =>
      var m := c.memory;
      var survivor := if m.id == result.id then m.(content := result.content, scope := result.scope) else m;
      c.(memory := if m.id in ids then survivor.(state := Dormant) else survivor)
    case Contradiction(_, _, _) => c
  }

  function ApplyActions(actions: seq<Action>, c: Candidate): Candidate {
    if actions == [] then c else ApplyActions(actions[1..], ApplyAction(actions[0], c))
  }

  function Applied(actions: seq<Action>, cs: seq<Candidate>): (r: seq<Candidate>)
    ensures |r| == |cs| && forall i :: 0 <= i < |cs| ==> r[i] == ApplyActions(actions, cs[i])
  {
    seq(|cs|, i requires 0 <= i < |cs| => ApplyActions(actions, cs[i]))
  }

  function Order(cs: seq<Candidate>): seq<Candidate> {
    PriorityOrder(PrepareAll(cs))
  }

  /** One consolidation command: run the simple strategy, then apply what it answers. */
  function Batch(rule: Rule, limit: Option<nat>, cs: seq<Candidate>): seq<Candidate> {
    var r := Simple(rule, limit, cs);
    if r.Ok? then Applied(r.value, cs) else cs
  }

  function Batches(rule: Rule, limit: Option<nat>, n: nat, cs: seq<Candidate>): seq<Candidate> {
    if n == 0 then cs else Batches(rule, limit, n - 1, Batch(rule, limit, cs))
  }

  // ----- the effect of a list of pairs

  function ScopeOf(cs: seq<Candidate>, id: MemoryId): MemoryScope {
    if cs == [] then Session
    else if cs[0].memory.id == id then cs[0].memory.scope
    else ScopeOf(cs[1..], id)
  }

  /** The scope that the candidate `id` has after the pairs: with crossed scopes, the join over its sources. */
  function SettledScope(rule: Rule, cs: seq<Candidate>, pairs: seq<Pair>, id: MemoryId, scope: MemoryScope): MemoryScope {
    if pairs == [] then scope
    else
      var before := SettledScope(rule, cs, pairs[..|pairs| - 1], id, scope);
      var last := pairs[|pairs| - 1];
      if rule.crossScope && last.0 == id then before.Max(ScopeOf(cs, last.1)) else before
  }

  function Settle(rule: Rule, cs: seq<Candidate>, pairs: seq<Pair>, c: Candidate): Candidate {
    var m := c.memory;
    c.(memory := m.(scope := SettledScope(rule, cs, pairs, m.id, m.scope),
                    state := if m.id in SourceIds(pairs) then Dormant else m.state))
  }

  function Settled(rule: Rule, pairs: seq<Pair>, cs: seq<Candidate>): (r: seq<Candidate>)
    ensures |r| == |cs| && forall i :: 0 <= i < |cs| ==> r[i] == Settle(rule, cs, pairs, cs[i])
  {
    seq(|cs|, i requires 0 <= i < |cs| => Settle(rule, cs, pairs, cs[i]))
  }

  lemma {:induction false} SettledScopeAppend(rule: Rule, cs: seq<Candidate>, p: seq<Pair>, q: seq<Pair>, id: MemoryId, scope: MemoryScope)
    ensures SettledScope(rule, cs, p + q, id, scope) ==
            SettledScope(rule, cs, q, id, SettledScope(rule, cs, p, id, scope))
  {
    if q == [] {
      assert p + q == p;
    } else {
      assert (p + q)[..|p + q| - 1] == p + q[..|q| - 1];
      SettledScopeAppend(rule, cs, p, q[..|q| - 1], id, scope);
    }
  }

  lemma {:induction false} SettledScopeUntouched(rule: Rule, cs: seq<Candidate>, pairs: seq<Pair>, id: MemoryId, scope: MemoryScope)
    requires !rule.crossScope || forall p :: p in pairs ==> p.0 != id
    ensures SettledScope(rule, cs, pairs, id, scope) == scope
  {
    if pairs != [] {
      assert pairs[|pairs| - 1] in pairs;
      SettledScopeUntouched(rule, cs, pairs[..|pairs| - 1], id, scope);
    }
  }

  lemma {:induction false} ScopeOfMember(cs: seq<Candidate>, c: Candidate)
    requires DistinctIds(cs) && c in cs
    ensures ScopeOf(cs, c.memory.id) == c.memory.scope
  {
    if c != cs[0] {
      assert c in cs[1..];
      ScopeOfMember(cs[1..], c);
    }
  }

  // ----- a run's actions have the effect of its pairs

  /** The memories of xs are memories of cs. */
  ghost predicate From(cs: seq<Candidate>, xs: seq<Candidate>) {
    forall x :: x in xs ==> exists c :: c in cs && c.memory == x.memory
  }

  lemma FromSubset(cs: seq<Candidate>, xs: seq<Candidate>, ys: seq<Candidate>)
    requires From(cs, xs) && forall y :: y in ys ==> y in xs
    ensures From(cs, ys)
  {
  }

  /** Settling a survivor with its own group gives it the group's highest scope. */
  lemma {:induction false} GroupScope(rule: Rule, cs: seq<Candidate>, id: MemoryId, scope: MemoryScope, sources: seq<Candidate>)
    requires DistinctIds(cs) && From(cs, sources)
    ensures SettledScope(rule, cs, PairUp(id, Ids(sources)), id, scope) ==
            if rule.crossScope then HighestScope(scope, sources) else scope
  {
    var pairs := PairUp(id, Ids(sources));
    if !rule.crossScope {
      SettledScopeUntouched(rule, cs, pairs, id, scope);
    } else if sources != [] {
      var n := |sources| - 1;
      GroupScope(rule, cs, id, scope, sources[..n]);
      IdAt(sources, n);
      IdsPrefix(sources, n);
      assert pairs[..n] == PairUp(id, Ids(sources[..n]));
      assert sources[n] in sources;
      var c :| c in cs && c.memory == sources[n].memory;
      ScopeOfMember(cs, c);
    }
  }

  /** What one action does, in terms of its pairs. */
  lemma ActionSettles(rule: Rule, cs: seq<Candidate>, l: Candidate, sources: seq<Candidate>, c: Candidate)
    requires DistinctIds(cs) && From(cs, [l] + sources) && c in cs
    ensures ApplyActions(SimpleAction(rule, l, sources), c) == Settle(rule, cs, PairUp(l.memory.id, Ids(sources)), c)
  {
    var pairs := PairUp(l.memory.id, Ids(sources));
    var actions := SimpleAction(rule, l, sources);
    SourceIdsOfPairUp(l.memory.id, Ids(sources));
    if sources != [] {
      assert ApplyActions(actions, c) == ApplyAction(actions[0], c) by {
        assert actions[1..] == [];
      }
    }
    assert From(cs, sources) by {
      assert forall s :: s in sources ==> s in [l] + sources;
    }
    if c.memory.id == l.memory.id {
      assert l in [l] + sources;
      var d :| d in cs && d.memory == l.memory;
      SameIdSame(cs, c, d);
      GroupScope(rule, cs, l.memory.id, l.memory.scope, sources);
    } else {
      SettledScopeUntouched(rule, cs, pairs, c.memory.id, c.memory.scope);
    }
  }

  lemma {:induction false} ApplyAppend(a: seq<Action>, b: seq<Action>, c: Candidate)
    ensures ApplyActions(a + b, c) == ApplyActions(b, ApplyActions(a, c))
  {
    if a == [] {
      assert a + b == b;
    } else {
      assert (a + b)[1..] == a[1..] + b;
      ApplyAppend(a[1..], b, ApplyAction(a[0], c));
    }
  }

  /** Two lists of pairs settle one after the other when the second group of sources is untouched by the first. */
  lemma SettleAppend(rule: Rule, cs: seq<Candidate>, p: seq<Pair>, q: seq<Pair>, c: Candidate)
    ensures Settle(rule, cs, p + q, c) == Settle(rule, cs, q, Settle(rule, cs, p, c))
  {
    SettledScopeAppend(rule, cs, p, q, c.memory.id, c.memory.scope);
    SourceIdsAppend(p, q);
  }

  lemma SettleUntouched(rule: Rule, cs: seq<Candidate>, pairs: seq<Pair>, c: Candidate)
    requires forall p :: p in pairs ==> p.0 != c.memory.id && p.1 != c.memory.id
    ensures Settle(rule, cs, pairs, c) == c
  {
    SettledScopeUntouched(rule, cs, pairs, c.memory.id, c.memory.scope);
    assert forall k :: 0 <= k < |pairs| ==> pairs[k] in pairs;
  }

  /** The first survivor of a run: what the budget lets it take, and what is left. */
  ghost predicate Splits(rule: Rule, limit: Option<nat>, xs: seq<Candidate>, processed: nat,
                         mine: seq<Candidate>, kept: seq<Candidate>, more: bool) {
    && xs != []
    && RunSimple(rule, limit, xs, processed) ==
         (if more then After(SimpleAction(rule, xs[0], mine), RunSimple(rule, limit, kept, processed + |mine|))
          else Ok(SimpleAction(rule, xs[0], mine)))
    && Cut(limit, processed, Pairs(rule, xs)) ==
         PairUp(xs[0].memory.id, Ids(mine)) + (if more then Cut(limit, processed + |mine|, Pairs(rule, kept)) else [])
  }

  lemma SplitRun(rule: Rule, limit: Option<nat>, xs: seq<Candidate>, processed: nat)
    returns (mine: seq<Candidate>, kept: seq<Candidate>, more: bool)
    requires xs != [] && Comparable(rule, xs)
    requires limit.Some? ==> processed <= limit.value
    ensures Splits(rule, limit, xs, processed, mine, kept, more)
    ensures kept == Unlinked(rule, xs[0], xs[1..]) && mine <= Linked(rule, xs[0], xs[1..])
    ensures limit.Some? ==> processed + |mine| <= limit.value
  {
    hide ScanSimple, SimpleAction, RunSimple, Pairs, Linked, Unlinked, Comparable, Takes, Cut, PairUp, Ids, Allowed;
    var l, others := xs[0], xs[1..];
    assert xs == [l] + others;
    PairsFirst(rule, l, others);
    ScanTakesLinked(rule, limit, l, others, processed);
    var linked := Linked(rule, l, others);
    var taken := Allowed(limit, processed, |linked|);
    AllowedWithin(limit, processed, |linked|);
    mine, kept, more := linked[..taken], Unlinked(rule, l, others), taken == |linked|;
    RunFirst(rule, limit, l, others, processed);
    PairsOfPrefix(l.memory.id, linked, taken);
    CutPieces(limit, processed, PairUp(l.memory.id, Ids(linked)), Pairs(rule, kept), PairUp(l.memory.id, Ids(mine)));
  }

  lemma CutPieces(limit: Option<nat>, processed: nat, mine: seq<Pair>, theirs: seq<Pair>, first: seq<Pair>)
    requires limit.Some? ==> processed <= limit.value
    requires Allowed(limit, processed, |mine|) <= |mine| && first == mine[..Allowed(limit, processed, |mine|)]
    ensures var taken := Allowed(limit, processed, |mine|);
      Cut(limit, processed, mine + theirs) == first + if taken == |mine| then Cut(limit, processed + taken, theirs) else []
  {
    hide Cut, Allowed;
    CutAppend(limit, processed, mine, theirs);
    if Allowed(limit, processed, |mine|) == |mine| {
      assert first == mine;
    } else {
      assert first + [] == first;
    }
  }

  lemma AllowedWithin(limit: Option<nat>, processed: nat, wanted: nat)
    ensures Allowed(limit, processed, wanted) <= wanted
    ensures limit.Some? && processed <= limit.value ==> processed + Allowed(limit, processed, wanted) <= limit.value
  {
  }

  lemma PairsOfPrefix(id: MemoryId, linked: seq<Candidate>, n: nat)
    requires n <= |linked|
    ensures |PairUp(id, Ids(linked))| == |linked| && PairUp(id, Ids(linked))[..n] == PairUp(id, Ids(linked[..n]))
  {
    hide Ids;
    IdsPrefix(linked, n);
  }

  lemma PairsFirst(rule: Rule, l: Candidate, others: seq<Candidate>)
    ensures Pairs(rule, [l] + others) ==
            PairUp(l.memory.id, Ids(Linked(rule, l, others))) + Pairs(rule, Unlinked(rule, l, others))
  {
    assert ([l] + others)[1..] == others;
  }

  lemma CutMember(limit: Option<nat>, processed: nat, pairs: seq<Pair>)
    ensures forall p :: p in Cut(limit, processed, pairs) ==> p in pairs
  {
  }

  lemma PairsAvoid(rule: Rule, xs: seq<Candidate>, id: MemoryId)
    requires id !in Ids(xs)
    ensures forall p :: p in Pairs(rule, xs) ==> p.0 != id && p.1 != id
  {
    PairsAreMembers(rule, xs);
    if xs != [] {
      IdsCons(xs[0], xs[1..]);
      assert xs == [xs[0]] + xs[1..];
    }
  }

  lemma RunNothing(rule: Rule, limit: Option<nat>, processed: nat, c: Candidate)
    ensures RunSimple(rule, limit, [], processed) == Ok([]) && ApplyActions([], c) == c
  {
  }

  /** A run leaves a candidate alone when its id is not visited. */
  lemma {:induction false} RunAvoids(rule: Rule, limit: Option<nat>, xs: seq<Candidate>, processed: nat, c: Candidate)
    requires Comparable(rule, xs) && c.memory.id !in Ids(xs)
    requires limit.Some? ==> processed <= limit.value
    ensures RunSimple(rule, limit, xs, processed).Ok?
    ensures ApplyActions(RunSimple(rule, limit, xs, processed).value, c) == c
    decreases |xs|
  {
    hide RunSimple, Links, Linked, Unlinked, Comparable, SimpleAction, ApplyActions, Cut, Pairs, Ids;
    if xs == [] {
      RunNothing(rule, limit, processed, c);
    } else {
      var mine, kept, more := SplitRun(rule, limit, xs, processed);
      LinkedMembers(rule, xs[0], xs[1..]);
      assert xs == [xs[0]] + xs[1..];
      assert forall m :: m in mine ==> m in Linked(rule, xs[0], xs[1..]);
      Avoids(rule, xs, mine, c);
      var first := SimpleAction(rule, xs[0], mine);
      if more {
        KeptAvoids(rule, xs, c.memory.id);
        ComparableSubset(rule, xs, kept);
        RunAvoids(rule, limit, kept, processed + |mine|, c);
        ApplyAppend(first, RunSimple(rule, limit, kept, processed + |mine|).value, c);
      }
    }
  }

  lemma Avoids(rule: Rule, xs: seq<Candidate>, mine: seq<Candidate>, c: Candidate)
    requires xs != [] && c.memory.id !in Ids(xs) && forall m :: m in mine ==> m in xs
    ensures ApplyActions(SimpleAction(rule, xs[0], mine), c) == c
  {
    IdsMember(xs, xs[0].memory.id);
    IdsMember(mine, c.memory.id);
    IdsMember(xs, c.memory.id);
    var actions := SimpleAction(rule, xs[0], mine);
    if actions != [] {
      assert actions[1..] == [];
    }
  }

  lemma KeptAvoids(rule: Rule, xs: seq<Candidate>, id: MemoryId)
    requires xs != [] && id !in Ids(xs)
    ensures id !in Ids(Unlinked(rule, xs[0], xs[1..]))
  {
    LinkedMembers(rule, xs[0], xs[1..]);
    IdsMember(Unlinked(rule, xs[0], xs[1..]), id);
    IdsMember(xs, id);
  }

  lemma SettleKeepsId(rule: Rule, cs: seq<Candidate>, pairs: seq<Pair>, c: Candidate)
    ensures Settle(rule, cs, pairs, c).memory.id == c.memory.id
  {
  }

  lemma NotInFirstGroup(rule: Rule, xs: seq<Candidate>, mine: seq<Candidate>, c: Candidate)
    requires xs != [] && DistinctIds(xs) && mine <= Linked(rule, xs[0], xs[1..])
    requires c.memory.id in Ids(Unlinked(rule, xs[0], xs[1..]))
    ensures forall p :: p in PairUp(xs[0].memory.id, Ids(mine)) ==> p.0 != c.memory.id && p.1 != c.memory.id
  {
    var free := Unlinked(rule, xs[0], xs[1..]);
    LinkedMembers(rule, xs[0], xs[1..]);
    IdsMember(free, c.memory.id);
    var k :| k in free && k.memory.id == c.memory.id;
    DistinctIdsTail(rule, xs);
    forall p | p in PairUp(xs[0].memory.id, Ids(mine)) ensures p.0 != c.memory.id && p.1 != c.memory.id {
      IdsMember(mine, p.1);
      var m :| m in mine && m.memory.id == p.1;
      assert m in Linked(rule, xs[0], xs[1..]);
      SameIdSame(xs[1..], m, k);
    }
  }

  lemma SplitMembers(rule: Rule, cs: seq<Candidate>, xs: seq<Candidate>, mine: seq<Candidate>)
    requires xs != [] && Comparable(rule, xs) && DistinctIds(xs) && From(cs, xs)
    requires mine <= Linked(rule, xs[0], xs[1..])
    ensures From(cs, [xs[0]] + mine)
    ensures var kept := Unlinked(rule, xs[0], xs[1..]);
      Comparable(rule, kept) && DistinctIds(kept) && From(cs, kept)
  {
    LinkedMembers(rule, xs[0], xs[1..]);
    forall y | y in [xs[0]] + mine ensures y in xs {
      assert y in mine ==> y in Linked(rule, xs[0], xs[1..]);
    }
    FromSubset(cs, xs, [xs[0]] + mine);
    FromSubset(cs, xs, Unlinked(rule, xs[0], xs[1..]));
    ComparableSubset(rule, xs, Unlinked(rule, xs[0], xs[1..]));
    DistinctIdsTail(rule, xs);
  }

  /** After the first group has settled, the rest of the run settles the rest. */
  lemma RestSettles(rule: Rule, limit: Option<nat>, cs: seq<Candidate>, xs: seq<Candidate>, spent: nat,
                    mine: seq<Candidate>, c: Candidate)
    requires xs != [] && DistinctIds(xs) && c in cs && mine <= Linked(rule, xs[0], xs[1..])
    requires limit.Some? ==> spent <= limit.value
    requires Comparable(rule, Unlinked(rule, xs[0], xs[1..]))
    requires var r := RunSimple(rule, limit, Unlinked(rule, xs[0], xs[1..]), spent);
      r.Ok? && ApplyActions(r.value, c) == Settle(rule, cs, Cut(limit, spent, Pairs(rule, Unlinked(rule, xs[0], xs[1..]))), c)
    ensures var kept := Unlinked(rule, xs[0], xs[1..]);
      var settled := Settle(rule, cs, PairUp(xs[0].memory.id, Ids(mine)), c);
      ApplyActions(RunSimple(rule, limit, kept, spent).value, settled) ==
        Settle(rule, cs, Cut(limit, spent, Pairs(rule, kept)), settled)
  {
    hide Settle, RunSimple, Links, Linked, Unlinked, Pairs, Comparable, ApplyActions, Cut;
    var kept, pairs := Unlinked(rule, xs[0], xs[1..]), PairUp(xs[0].memory.id, Ids(mine));
    if c.memory.id in Ids(kept) {
      NotInFirstGroup(rule, xs, mine, c);
      SettleUntouched(rule, cs, pairs, c);
    } else {
      var settled := Settle(rule, cs, pairs, c);
      SettleKeepsId(rule, cs, pairs, c);
      RunAvoids(rule, limit, kept, spent, settled);
      PairsAvoid(rule, kept, c.memory.id);
      CutMember(limit, spent, Pairs(rule, kept));
      SettleUntouched(rule, cs, Cut(limit, spent, Pairs(rule, kept)), settled);
    }
  }

  lemma Compose(rule: Rule, cs: seq<Candidate>, first: seq<Action>, rest: seq<Action>, p: seq<Pair>, q: seq<Pair>, c: Candidate)
    requires ApplyActions(first, c) == Settle(rule, cs, p, c)
    requires ApplyActions(rest, Settle(rule, cs, p, c)) == Settle(rule, cs, q, Settle(rule, cs, p, c))
    ensures ApplyActions(first + rest, c) == Settle(rule, cs, p + q, c)
  {
    hide Settle;
    ApplyAppend(first, rest, c);
    SettleAppend(rule, cs, p, q, c);
  }

  /** Applying a run's actions to the store has exactly the effect of the pairs it merged. */
  lemma {:induction false} RunSettles(rule: Rule, limit: Option<nat>, cs: seq<Candidate>, xs: seq<Candidate>, processed: nat, c: Candidate)
    requires Comparable(rule, xs) && DistinctIds(xs) && DistinctIds(cs) && From(cs, xs) && c in cs
    requires limit.Some? ==> processed <= limit.value
    ensures RunSimple(rule, limit, xs, processed).Ok?
    ensures ApplyActions(RunSimple(rule, limit, xs, processed).value, c) ==
            Settle(rule, cs, Cut(limit, processed, Pairs(rule, xs)), c)
    decreases |xs|
  {
    hide SimpleAction, Settle, RunSimple, Pairs, ApplyActions, Cut, PairUp, Ids, Splits, Linked, Unlinked, Comparable, From;
    if xs == [] {
      NothingSettles(rule, limit, cs, processed, c);
    } else {
      var mine, kept, more := SplitRun(rule, limit, xs, processed);
      SplitMembers(rule, cs, xs, mine);
      ActionSettles(rule, cs, xs[0], mine, c);
      if more {
        RunSettles(rule, limit, cs, kept, processed + |mine|, c);
        RestSettles(rule, limit, cs, xs, processed + |mine|, mine, c);
      }
      Reassemble(rule, limit, cs, xs, processed, mine, kept, more, c);
    }
  }

  lemma NothingSettles(rule: Rule, limit: Option<nat>, cs: seq<Candidate>, processed: nat, c: Candidate)
    ensures RunSimple(rule, limit, [], processed).Ok?
    ensures ApplyActions(RunSimple(rule, limit, [], processed).value, c) ==
            Settle(rule, cs, Cut(limit, processed, Pairs(rule, [])), c)
  {
    SettleUntouched(rule, cs, [], c);
  }

  lemma Reassemble(rule: Rule, limit: Option<nat>, cs: seq<Candidate>, xs: seq<Candidate>, processed: nat,
                   mine: seq<Candidate>, kept: seq<Candidate>, more: bool, c: Candidate)
    requires Splits(rule, limit, xs, processed, mine, kept, more)
    requires var settled := Settle(rule, cs, PairUp(xs[0].memory.id, Ids(mine)), c);
      && ApplyActions(SimpleAction(rule, xs[0], mine), c) == settled
      && (more ==>
        var spent := processed + |mine|;
        && RunSimple(rule, limit, kept, spent).Ok?
        && ApplyActions(RunSimple(rule, limit, kept, spent).value, settled) ==
             Settle(rule, cs, Cut(limit, spent, Pairs(rule, kept)), settled))
    ensures RunSimple(rule, limit, xs, processed).Ok?
    ensures ApplyActions(RunSimple(rule, limit, xs, processed).value, c) ==
            Settle(rule, cs, Cut(limit, processed, Pairs(rule, xs)), c)
  {
    hide SimpleAction, Settle, RunSimple, Pairs, ApplyActions, Cut, PairUp, Ids;
    var pairs := PairUp(xs[0].memory.id, Ids(mine));
    if more {
      var spent := processed + |mine|;
      Compose(rule, cs, SimpleAction(rule, xs[0], mine), RunSimple(rule, limit, kept, spent).value,
        pairs, Cut(limit, spent, Pairs(rule, kept)), c);
    } else {
      assert pairs + [] == pairs;
    }
  }
}
