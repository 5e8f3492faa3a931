/**
 * Bounded batches end where one unlimited run ends, merge consecutive slices of its pairs, and leave nothing to do
 * (plugins/memory/src/consolidator.rs; plugins/memory/src/cli.rs, execute_consolidate_command).
 */
module ConfluenceTheorem {
  import opened Wrappers
  import opened Scopes
  import opened Candidates
  import opened SimpleStrategy
  import opened Clusters
  import opened ClusterFacts
  import opened Confluence
  import opened BoundedBatches

  // ----- settling changes nothing that the clustering looks at

  ghost predicate Alike(rule: Rule, a: Candidate, b: Candidate) {
    && a.memory.id == b.memory.id && a.memory.importance == b.memory.importance && a.embedding == b.embedding
    && (rule.crossScope || a.memory.scope == b.memory.scope)
  }

  ghost predicate AlikeAll(rule: Rule, xs: seq<Candidate>, ys: seq<Candidate>) {
    |xs| == |ys| && forall i :: 0 <= i < |xs| ==> Alike(rule, xs[i], ys[i])
  }

  lemma {:induction false} AlikeFilter(rule: Rule, l: Candidate, m: Candidate, xs: seq<Candidate>, ys: seq<Candidate>)
    requires Alike(rule, l, m) && AlikeAll(rule, xs, ys)
    ensures AlikeAll(rule, Linked(rule, l, xs), Linked(rule, m, ys))
    ensures AlikeAll(rule, Unlinked(rule, l, xs), Unlinked(rule, m, ys))
  {
    if xs != [] {
      assert Links(rule, l, xs[0]) == Links(rule, m, ys[0]);
      AlikeFilter(rule, l, m, xs[1..], ys[1..]);
    }
  }

  lemma AlikeIds(rule: Rule, xs: seq<Candidate>, ys: seq<Candidate>)
    requires AlikeAll(rule, xs, ys)
    ensures Ids(xs) == Ids(ys)
  {
  }

  lemma {:induction false} AlikePairs(rule: Rule, xs: seq<Candidate>, ys: seq<Candidate>)
    requires AlikeAll(rule, xs, ys)
    ensures Pairs(rule, xs) == Pairs(rule, ys)
    decreases |xs|
  {
    if xs != [] {
      AlikeFilter(rule, xs[0], ys[0], xs[1..], ys[1..]);
      AlikeIds(rule, Linked(rule, xs[0], xs[1..]), Linked(rule, ys[0], ys[1..]));
      AlikePairs(rule, Unlinked(rule, xs[0], xs[1..]), Unlinked(rule, ys[0], ys[1..]));
    }
  }

  lemma AlikeComparable(rule: Rule, xs: seq<Candidate>, ys: seq<Candidate>)
    requires AlikeAll(rule, xs, ys) && Comparable(rule, xs)
    ensures Comparable(rule, ys)
  {
    forall a, b | a in ys && b in ys && SameZone(rule, a, b) ensures |Vector(a)| == |Vector(b)| > 0 {
      var i :| 0 <= i < |ys| && ys[i] == a;
      var j :| 0 <= j < |ys| && ys[j] == b;
      assert xs[i] in xs && xs[j] in xs;
      assert SameZone(rule, xs[i], xs[j]);
    }
  }

  // ----- the visiting order after settling is the old one without the sources

  ghost predicate Descending(xs: seq<Candidate>) {
    forall i, j :: 0 <= i < j < |xs| ==> xs[i].memory.importance >= xs[j].memory.importance
  }

  lemma {:induction false} InsertMembers(c: Candidate, xs: seq<Candidate>)
    ensures forall x :: x in Insert(c, xs) <==> x == c || x in xs
    ensures Descending(xs) ==> Descending(Insert(c, xs))
  {
    if xs != [] && xs[0].memory.importance > c.memory.importance {
      var tail := Insert(c, xs[1..]);
      InsertMembers(c, xs[1..]);
      assert xs == [xs[0]] + xs[1..];
      if Descending(xs) {
        forall j | 0 <= j < |tail| ensures xs[0].memory.importance >= tail[j].memory.importance {
          assert tail[j] in tail;
          assert tail[j] == c || tail[j] in xs[1..];
        }
      }
    }
  }

  lemma {:induction false} InsertWithout(ids: set<MemoryId>, c: Candidate, xs: seq<Candidate>)
    requires Descending(xs)
    ensures Without(ids, Insert(c, xs)) ==
            if c.memory.id in ids then Without(ids, xs) else Insert(c, Without(ids, xs))
  {
    if xs == [] || xs[0].memory.importance <= c.memory.importance {
      assert ([c] + xs)[1..] == xs;
      LowFirst(ids, c, xs);
    } else {
      InsertWithout(ids, c, xs[1..]);
      assert Insert(c, xs)[1..] == Insert(c, xs[1..]);
    }
  }

  lemma LowFirst(ids: set<MemoryId>, c: Candidate, xs: seq<Candidate>)
    requires Descending(xs) && (xs == [] || xs[0].memory.importance <= c.memory.importance)
    ensures Insert(c, Without(ids, xs)) == [c] + Without(ids, xs)
  {
  }

  lemma {:induction false} InsertAlike(rule: Rule, c: Candidate, d: Candidate, xs: seq<Candidate>, ys: seq<Candidate>)
    requires Alike(rule, c, d) && AlikeAll(rule, xs, ys)
    ensures AlikeAll(rule, Insert(c, xs), Insert(d, ys))
  {
    if xs != [] && xs[0].memory.importance > c.memory.importance {
      InsertAlike(rule, c, d, xs[1..], ys[1..]);
    }
  }

  lemma {:induction false} OrderMembers(cs: seq<Candidate>)
    ensures forall x :: x in PriorityOrder(cs) <==> x in cs && Ready(x)
    ensures Descending(PriorityOrder(cs))
  {
    if cs != [] {
      OrderMembers(cs[1..]);
      assert cs == [cs[0]] + cs[1..];
      InsertMembers(cs[0], PriorityOrder(cs[1..]));
    }
  }

  /** d is what became of c: still there unless its id is gone. */
  ghost predicate Tracks(rule: Rule, gone: set<MemoryId>, c: Candidate, d: Candidate) {
    if Ready(c) && c.memory.id !in gone then Ready(d) && Alike(rule, c, d) else !Ready(d)
  }

  lemma {:induction false} OrderTracks(rule: Rule, gone: set<MemoryId>, cs: seq<Candidate>, ds: seq<Candidate>)
    requires |cs| == |ds| && forall i :: 0 <= i < |cs| ==> Tracks(rule, gone, cs[i], ds[i])
    ensures AlikeAll(rule, Without(gone, PriorityOrder(cs)), PriorityOrder(ds))
  {
    if cs != [] {
      OrderTracks(rule, gone, cs[1..], ds[1..]);
      OrderMembers(cs[1..]);
      if Ready(cs[0]) {
        InsertWithout(gone, cs[0], PriorityOrder(cs[1..]));
        if cs[0].memory.id !in gone {
          InsertAlike(rule, cs[0], ds[0], Without(gone, PriorityOrder(cs[1..])), PriorityOrder(ds[1..]));
        }
      }
    }
  }

  lemma PrepareTracks(rule: Rule, cs: seq<Candidate>, pairs: seq<Pair>, c: Candidate)
    ensures Tracks(rule, IdSet(SourceIds(pairs)), Prepare(c), Prepare(Settle(rule, cs, pairs, c)))
  {
    if !rule.crossScope {
      SettledScopeUntouched(rule, cs, pairs, c.memory.id, c.memory.scope);
    }
  }

  /** The store after some pairs have settled visits what was visited before, without their sources. */
  lemma SettledOrder(rule: Rule, cs: seq<Candidate>, pairs: seq<Pair>)
    ensures AlikeAll(rule, Without(IdSet(SourceIds(pairs)), Order(cs)), Order(Settled(rule, pairs, cs)))
  {
    var ds := Settled(rule, pairs, cs);
    var p, q := PrepareAll(cs), PrepareAll(ds);
    forall i | 0 <= i < |cs| ensures Tracks(rule, IdSet(SourceIds(pairs)), p[i], q[i]) {
      PrepareTracks(rule, cs, pairs, cs[i]);
    }
    OrderTracks(rule, IdSet(SourceIds(pairs)), p, q);
  }

  // ----- distinct ids survive ordering and settling

  lemma {:induction false} InsertDistinct(c: Candidate, xs: seq<Candidate>)
    requires DistinctIds(xs) && forall x :: x in xs ==> x.memory.id != c.memory.id
    ensures DistinctIds(Insert(c, xs))
  {
    if xs != [] && xs[0].memory.importance > c.memory.importance {
      var tail := Insert(c, xs[1..]);
      InsertDistinct(c, xs[1..]);
      InsertMembers(c, xs[1..]);
      forall j | 0 <= j < |tail| ensures tail[j].memory.id != xs[0].memory.id {
        assert tail[j] in tail;
        assert tail[j] == c || tail[j] in xs[1..];
      }
    }
  }

  lemma {:induction false} PriorityOrderDistinct(cs: seq<Candidate>)
    requires DistinctIds(cs)
    ensures DistinctIds(PriorityOrder(cs))
  {
    if cs != [] {
      PriorityOrderDistinct(cs[1..]);
      OrderMembers(cs[1..]);
      InsertDistinct(cs[0], PriorityOrder(cs[1..]));
    }
  }

  lemma OrderFacts(cs: seq<Candidate>)
    requires DistinctIds(cs)
    ensures DistinctIds(Order(cs)) && From(cs, Order(cs))
  {
    var ps := PrepareAll(cs);
    PriorityOrderDistinct(ps);
    OrderMembers(ps);
    forall x | x in Order(cs) ensures exists c :: c in cs && c.memory == x.memory {
      var i :| 0 <= i < |ps| && ps[i] == x;
      assert cs[i] in cs && cs[i].memory == x.memory;
    }
  }

  lemma SettledDistinct(rule: Rule, pairs: seq<Pair>, cs: seq<Candidate>)
    requires DistinctIds(cs)
    ensures DistinctIds(Settled(rule, pairs, cs))
  {
  }

  // ----- settling in two steps

  /** A leader of one pair is never the source of another. */
  lemma FirstsAreNotSources(rule: Rule, xs: seq<Candidate>, p: Pair, q: Pair)
    requires DistinctIds(xs) && p in Pairs(rule, xs) && q in Pairs(rule, xs)
    ensures p.0 != q.1
  {
    var pairs := Pairs(rule, xs);
    LeadersAreNotSources(rule, xs);
    IdsMember(Leaders(rule, xs), p.0);
    var l :| l in Leaders(rule, xs) && l.memory.id == p.0;
    var k :| 0 <= k < |pairs| && pairs[k] == q;
    assert SourceIds(pairs)[k] == q.1;
  }

  lemma {:induction false} ScopeOfPointwise(a: seq<Candidate>, b: seq<Candidate>, id: MemoryId)
    requires |a| == |b|
    requires forall i :: 0 <= i < |a| ==> a[i].memory.id == b[i].memory.id
    requires forall i :: 0 <= i < |a| && a[i].memory.id == id ==> a[i].memory.scope == b[i].memory.scope
    ensures ScopeOf(a, id) == ScopeOf(b, id)
  {
    if a != [] {
      ScopeOfPointwise(a[1..], b[1..], id);
    }
  }

  lemma ScopeOfSettled(rule: Rule, cs: seq<Candidate>, pairs: seq<Pair>, id: MemoryId)
    requires forall p :: p in pairs ==> p.0 != id
    ensures ScopeOf(Settled(rule, pairs, cs), id) == ScopeOf(cs, id)
  {
    var ds := Settled(rule, pairs, cs);
    forall i | 0 <= i < |cs| && ds[i].memory.id == id ensures ds[i].memory.scope == cs[i].memory.scope {
      SettledScopeUntouched(rule, cs, pairs, id, cs[i].memory.scope);
    }
    ScopeOfPointwise(ds, cs, id);
  }

  lemma {:induction false} SettledScopeCongruence(rule: Rule, a: seq<Candidate>, b: seq<Candidate>, pairs: seq<Pair>, id: MemoryId, scope: MemoryScope)
    requires forall p :: p in pairs ==> ScopeOf(a, p.1) == ScopeOf(b, p.1)
    ensures SettledScope(rule, a, pairs, id, scope) == SettledScope(rule, b, pairs, id, scope)
  {
    if pairs != [] {
      assert pairs[|pairs| - 1] in pairs;
      SettledScopeCongruence(rule, a, b, pairs[..|pairs| - 1], id, scope);
    }
  }

  /** Settling p and then q, in the store that p left, is settling p + q. */
  lemma SettledTwice(rule: Rule, cs: seq<Candidate>, p: seq<Pair>, q: seq<Pair>)
    requires forall x, y :: x in p && y in q ==> x.0 != y.1
    ensures Settled(rule, q, Settled(rule, p, cs)) == Settled(rule, p + q, cs)
  {
    var ds := Settled(rule, p, cs);
    forall y | y in q ensures ScopeOf(ds, y.1) == ScopeOf(cs, y.1) {
      ScopeOfSettled(rule, cs, p, y.1);
    }
    forall i | 0 <= i < |cs| ensures Settle(rule, ds, q, ds[i]) == Settle(rule, cs, p + q, cs[i]) {
      SettledScopeCongruence(rule, ds, cs, q, ds[i].memory.id, ds[i].memory.scope);
      SettleAppend(rule, cs, p, q, cs[i]);
    }
  }

  // ----- the theorem

  /** The pairs of an unlimited run on a store. */
  function AllPairs(rule: Rule, cs: seq<Candidate>): seq<Pair> {
    Pairs(rule, Order(cs))
  }

  /** One batch settles as many of the pairs as its limit allows. */
  lemma BatchSettles(rule: Rule, limit: Option<nat>, cs: seq<Candidate>)
    requires DistinctIds(cs) && Comparable(rule, Order(cs))
    ensures Simple(rule, limit, cs).Ok?
    ensures ActionPairs(Simple(rule, limit, cs).value) == Cut(limit, 0, AllPairs(rule, cs))
    ensures Batch(rule, limit, cs) == Settled(rule, Cut(limit, 0, AllPairs(rule, cs)), cs)
  {
    hide RunSimple, Pairs, Settle, ApplyActions, Comparable, PriorityOrder;
    OrderFacts(cs);
    var actions := RunMergesPairs(rule, limit, Order(cs), 0);
    forall i | 0 <= i < |cs| ensures Batch(rule, limit, cs)[i] == Settle(rule, cs, Cut(limit, 0, AllPairs(rule, cs)), cs[i]) {
      RunSettles(rule, limit, cs, Order(cs), 0, cs[i]);
    }
  }

  /** After the first m pairs have settled, the store's pairs are the others. */
  lemma PairsLeft(rule: Rule, cs: seq<Candidate>, m: nat)
    requires DistinctIds(cs) && Comparable(rule, Order(cs)) && m <= |AllPairs(rule, cs)|
    ensures var ds := Settled(rule, AllPairs(rule, cs)[..m], cs);
      DistinctIds(ds) && Comparable(rule, Order(ds)) && AllPairs(rule, ds) == AllPairs(rule, cs)[m..]
  {
    hide Pairs, Settle, Comparable, PriorityOrder, Without, AlikeAll, Settled, DistinctIds;
    var done := AllPairs(rule, cs)[..m];
    var ds := Settled(rule, done, cs);
    var left := Without(FirstSources(rule, Order(cs), m), Order(cs));
    OrderFacts(cs);
    SettledDistinct(rule, done, cs);
    SettledOrder(rule, cs, done);
    WithoutMembers(FirstSources(rule, Order(cs), m), Order(cs));
    ComparableSubset(rule, Order(cs), left);
    AlikeComparable(rule, left, Order(ds));
    AlikePairs(rule, left, Order(ds));
    RemainingPairs(rule, Order(cs), m);
  }

  lemma SettledSlices(rule: Rule, cs: seq<Candidate>, m: nat, n: nat)
    requires DistinctIds(cs) && m <= n <= |AllPairs(rule, cs)|
    ensures var pairs := AllPairs(rule, cs);
      Settled(rule, pairs[m..n], Settled(rule, pairs[..m], cs)) == Settled(rule, pairs[..n], cs)
  {
    var pairs := AllPairs(rule, cs);
    OrderFacts(cs);
    forall x, y | x in pairs[..m] && y in pairs[m..n] ensures x.0 != y.1 {
      FirstsAreNotSources(rule, Order(cs), x, y);
    }
    assert pairs[..m] + pairs[m..n] == pairs[..n];
    SettledTwice(rule, cs, pairs[..m], pairs[m..n]);
  }

  lemma MulStep(k: nat, n: nat)
    requires n > 0
    ensures n * k == k + (n - 1) * k
  {
  }

  /** n batches of at most k pairs settle the first n*k pairs of the unlimited run. */
  lemma {:induction false} BatchesSettle(rule: Rule, k: nat, n: nat, cs: seq<Candidate>)
    requires DistinctIds(cs) && Comparable(rule, Order(cs))
    ensures var pairs := AllPairs(rule, cs);
      Batches(rule, Some(k), n, cs) == Settled(rule, pairs[..Min(n * k, |pairs|)], cs)
    decreases n
  {
    hide Pairs, Settle, Settled, Comparable, PriorityOrder, DistinctIds, Batch;
    var pairs := AllPairs(rule, cs);
    if n == 0 {
      assert 0 * k == 0;
      assert pairs[..0] == [];
      SettledNothing(rule, cs);
    } else {
      MulStep(k, n);
      var m := Min(k, |pairs|);
      var ds := Settled(rule, pairs[..m], cs);
      BatchSettles(rule, Some(k), cs);
      assert Cut(Some(k), 0, pairs) == pairs[..m];
      PairsLeft(rule, cs, m);
      BatchesSettle(rule, k, n - 1, ds);
      var rest := Min((n - 1) * k, |pairs| - m);
      assert m + rest == Min(n * k, |pairs|);
      assert pairs[m..][..rest] == pairs[m..m + rest];
      SettledSlices(rule, cs, m, m + rest);
    }
  }

  lemma SettledNothing(rule: Rule, cs: seq<Candidate>)
    ensures Settled(rule, [], cs) == cs
  {
  }

  /**
   * Confluence. Whatever the batch size k, once n batches have room for all pairs the store is the one that a
   * single unlimited run leaves: same survivors, same scopes, same dormant sources.
   */
  lemma BoundedBatchesAreConfluent(rule: Rule, k: nat, n: nat, cs: seq<Candidate>)
    requires DistinctIds(cs) && Comparable(rule, Order(cs)) && n * k >= |AllPairs(rule, cs)|
    ensures Batches(rule, Some(k), n, cs) == Batch(rule, None, cs)
  {
    var pairs := AllPairs(rule, cs);
    BatchesSettle(rule, k, n, cs);
    BatchSettles(rule, None, cs);
    assert pairs[..|pairs|] == pairs;
    assert Cut(None, 0, pairs) == pairs;
  }

  lemma NextSlice(k: nat, n: nat, pairs: seq<Pair>)
    ensures var m, next := Min(n * k, |pairs|), Min((n + 1) * k, |pairs|);
      m <= next && Cut(Some(k), 0, pairs[m..]) == pairs[m..next]
  {
  }

  /** The batch after n others merges the next consecutive slice of the unlimited run's pairs. */
  lemma BatchesAreConsecutiveSlices(rule: Rule, k: nat, n: nat, cs: seq<Candidate>)
    requires DistinctIds(cs) && Comparable(rule, Order(cs))
    ensures var pairs := AllPairs(rule, cs);
      var r := Simple(rule, Some(k), Batches(rule, Some(k), n, cs));
      && r.Ok?
      && Min(n * k, |pairs|) <= Min((n + 1) * k, |pairs|)
      && ActionPairs(r.value) == pairs[Min(n * k, |pairs|)..Min((n + 1) * k, |pairs|)]
  {
    hide Pairs, Settle, Settled, Comparable, PriorityOrder, DistinctIds, Batch, Batches, RunSimple, ActionPairs, AllPairs;
    var pairs := AllPairs(rule, cs);
    var m := Min(n * k, |pairs|);
    BatchesSettle(rule, k, n, cs);
    PairsLeft(rule, cs, m);
    BatchSettles(rule, Some(k), Settled(rule, pairs[..m], cs));
    NextSlice(k, n, pairs);
  }

  // ----- idempotence

  lemma {:induction false} RunActionsMerge(rule: Rule, limit: Option<nat>, xs: seq<Candidate>, processed: nat)
    ensures var r := RunSimple(rule, limit, xs, processed);
      r.Ok? && r.value != [] ==> ActionPairs(r.value) != []
    decreases |xs|
  {
    if xs != [] {
      var scan := ScanSimple(rule, limit, xs[0], xs[1..], processed);
      if scan.Ok? {
        var first := SimpleAction(rule, xs[0], scan.value.sources);
        SimpleActionPairs(rule, xs[0], scan.value.sources);
        if !scan.value.limitReached {
          RunActionsMerge(rule, limit, scan.value.kept, scan.value.processed);
          var rest := RunSimple(rule, limit, scan.value.kept, scan.value.processed);
          if rest.Ok? {
            ActionPairsAppend(first, rest.value);
          }
        }
      }
    }
  }

  /** After an unlimited run has been applied, no run with any limit finds anything to merge. */
  lemma ConsolidationIsIdempotent(rule: Rule, limit: Option<nat>, cs: seq<Candidate>)
    requires DistinctIds(cs) && Comparable(rule, Order(cs))
    ensures Simple(rule, limit, Batch(rule, None, cs)) == Ok([])
  {
    hide Pairs, Settle, Settled, Comparable, PriorityOrder, DistinctIds, Batch, RunSimple, ActionPairs;
    var pairs := AllPairs(rule, cs);
    BatchSettles(rule, None, cs);
    assert Cut(None, 0, pairs) == pairs == pairs[..|pairs|];
    PairsLeft(rule, cs, |pairs|);
    var ds := Batch(rule, None, cs);
    BatchSettles(rule, limit, ds);
    assert Cut(limit, 0, []) == [];
    RunActionsMerge(rule, limit, Order(ds), 0);
  }
}
