/**
 * Consolidation with a fresh listing before every batch (plugins/memory/src/cli.rs, execute_consolidate_command, and
 * plugins/memory/src/storage/sqlite_store.rs, list_consolidation_candidates). The listing is by update time, and a
 * promotion stamps the time, so promoted survivors come back further ahead.
 */
module Relisting {
  import opened Wrappers
  import opened Scopes
  import opened Candidates
  import opened SimpleStrategy
  import opened Clusters
  import opened ClusterFacts
  import opened Confluence
  import opened BoundedBatches
  import opened ConfluenceTheorem
  import opened SettledFront

  ghost predicate Ahead(xs: seq<Candidate>, a: MemoryId, b: MemoryId) {
    exists i, j :: 0 <= i < j < |xs| && xs[i].memory.id == a && xs[j].memory.id == b
  }

  ghost predicate SameMembers(xs: seq<Candidate>, ys: seq<Candidate>) {
    forall x :: x in xs <==> x in ys
  }

  /** Of two active candidates the second, once `before`, was not promoted. */
  predicate MustFollow(first: Candidate, before: Candidate, second: Candidate) {
    first.memory.state == Active && second.memory.state == Active && second.memory.scope == before.memory.scope
  }

  /**
   * ds lists the candidates that a batch has left of cs. An active candidate that the batch has not promoted stays
   * behind the active ones it was behind; a promoted one may be anywhere ahead.
   */
  ghost predicate Relists(cs: seq<Candidate>, left: seq<Candidate>, ds: seq<Candidate>) {
    && |left| == |cs| && DistinctIds(ds) && SameMembers(left, ds)
    && (forall i, j :: 0 <= i < j < |cs| && MustFollow(left[i], cs[j], left[j]) ==>
          Ahead(ds, left[i].memory.id, left[j].memory.id))
  }

  /** The listing: latest update first, then the higher id. */
  ghost predicate Listed(stamp: MemoryId -> int, cs: seq<Candidate>) {
    forall i, j :: 0 <= i < j < |cs| && cs[i].memory.state == Active && cs[j].memory.state == Active ==>
      stamp(cs[i].memory.id) > stamp(cs[j].memory.id)
      || (stamp(cs[i].memory.id) == stamp(cs[j].memory.id) && cs[i].memory.id > cs[j].memory.id)
  }

  /** Promoting a candidate stamps it, with a clock that does not run backwards; nothing else stamps an active one. */
  ghost predicate Restamped(stamp: MemoryId -> int, later: MemoryId -> int, before: Candidate, after: Candidate) {
    var id := before.memory.id;
    if after.memory.scope == before.memory.scope then later(id) == stamp(id) else later(id) >= stamp(id)
  }

  /** Listing by the update times that a batch leaves relists it; those of sources made dormant do not matter. */
  lemma PromotionsRelist(stamp: MemoryId -> int, later: MemoryId -> int, cs: seq<Candidate>, left: seq<Candidate>, ds: seq<Candidate>)
    requires |left| == |cs| && DistinctIds(left) && DistinctIds(ds) && SameMembers(left, ds)
    requires forall i :: 0 <= i < |cs| ==>
      left[i].memory.id == cs[i].memory.id && (left[i].memory.state == Active ==> cs[i].memory.state == Active)
    requires forall i :: 0 <= i < |cs| ==>
      (left[i].memory.state == Active ==> Restamped(stamp, later, cs[i], left[i]))
    requires Listed(stamp, cs) && Listed(later, ds)
    ensures Relists(cs, left, ds)
  {
    forall i, j | 0 <= i < j < |cs| && MustFollow(left[i], cs[j], left[j])
      ensures Ahead(ds, left[i].memory.id, left[j].memory.id)
    {
      assert left[i] in ds && left[j] in ds;
      var a :| 0 <= a < |ds| && ds[a] == left[i];
      var b :| 0 <= b < |ds| && ds[b] == left[j];
      assert left[i].memory.id != left[j].memory.id;
    }
  }

  // ----- the visiting order of a listing

  lemma PriorityAhead(cs: seq<Candidate>, i: nat, j: nat)
    requires DistinctIds(cs) && i < |cs| && j < |cs| && i != j && Ready(cs[i]) && Ready(cs[j])
    ensures Ahead(PriorityOrder(cs), cs[i].memory.id, cs[j].memory.id) <==> Before(cs, i, j)
  {
    hide PriorityOrder, Select, DistinctIds, Ahead, Before;
    var order := LeastOrder(cs, 0);
    assert cs[0..] == cs;
    var a :| 0 <= a < |order| && order[a] == i;
    var b :| 0 <= b < |order| && order[b] == j;
    PriorityOrderDistinct(cs);
    AheadAt(PriorityOrder(cs), a, b);
    assert if a < b then Before(cs, order[a], order[b]) else Before(cs, order[b], order[a]);
    NotBothBefore(cs, i, j);
  }

  lemma NotBothBefore(cs: seq<Candidate>, i: nat, j: nat)
    requires i < |cs| && j < |cs|
    ensures !(Before(cs, i, j) && Before(cs, j, i))
  {
  }

  lemma PreparedMembers(cs: seq<Candidate>, ds: seq<Candidate>)
    requires SameMembers(cs, ds)
    ensures SameMembers(Order(cs), Order(ds))
  {
    var p, q := PrepareAll(cs), PrepareAll(ds);
    OrderMembers(p);
    OrderMembers(q);
    forall x ensures x in p <==> x in q {
      if x in p {
        var i :| 0 <= i < |p| && p[i] == x;
        assert cs[i] in ds;
        var j :| 0 <= j < |ds| && ds[j] == cs[i];
        assert q[j] == x;
      }
      if x in q {
        var i :| 0 <= i < |q| && q[i] == x;
        assert ds[i] in cs;
        var j :| 0 <= j < |cs| && cs[j] == ds[i];
        assert p[j] == x;
      }
    }
  }

  /** Where a visited candidate is listed. */
  lemma Visited(cs: seq<Candidate>, x: Candidate) returns (i: nat)
    requires x in Order(cs)
    ensures i < |cs| && Prepare(cs[i]) == x && Ready(x)
  {
    OrderMembers(PrepareAll(cs));
    i :| 0 <= i < |cs| && PrepareAll(cs)[i] == x;
  }

  lemma OrderAhead(cs: seq<Candidate>, i: nat, j: nat)
    requires DistinctIds(cs) && i < |cs| && j < |cs| && i != j && Ready(Prepare(cs[i])) && Ready(Prepare(cs[j]))
    ensures Ahead(Order(cs), cs[i].memory.id, cs[j].memory.id) <==> Before(cs, i, j)
  {
    PriorityAhead(PrepareAll(cs), i, j);
  }

  /** A candidate that was not promoted is still visited after those it was visited after. */
  lemma StillAhead(cs: seq<Candidate>, left: seq<Candidate>, ds: seq<Candidate>, x: Candidate, y: Candidate)
    requires Relists(cs, left, ds) && DistinctIds(left)
    requires x in Order(left) && y in Order(left) && Ahead(Order(left), x.memory.id, y.memory.id)
    requires forall j :: 0 <= j < |cs| && left[j].memory.id == y.memory.id ==> left[j].memory.scope == cs[j].memory.scope
    ensures Ahead(Order(ds), x.memory.id, y.memory.id)
  {
    hide Order, Ahead;
    var i := Visited(left, x);
    var j := Visited(left, y);
    OrderFacts(left);
    NotAheadOfItself(Order(left), x.memory.id);
    OrderAhead(left, i, j);
    assert left[i] in ds && left[j] in ds;
    var a :| 0 <= a < |ds| && ds[a] == left[i];
    var b :| 0 <= b < |ds| && ds[b] == left[j];
    if i < j {
      assert MustFollow(left[i], cs[j], left[j]);
      AheadAt(ds, a, b);
    }
    OrderAhead(ds, a, b);
  }

  lemma AheadAt(xs: seq<Candidate>, a: nat, b: nat)
    requires DistinctIds(xs) && a < |xs| && b < |xs|
    ensures Ahead(xs, xs[a].memory.id, xs[b].memory.id) <==> a < b
  {
  }

  lemma NotAheadOfItself(xs: seq<Candidate>, id: MemoryId)
    requires DistinctIds(xs)
    ensures !Ahead(xs, id, id)
  {
  }

  /** Everything that xs has before its members from n on is ahead of them in ys too. */
  ghost predicate Follows(xs: seq<Candidate>, n: nat, ys: seq<Candidate>) {
    forall i, j :: 0 <= i < j < |xs| && j >= n ==> Ahead(ys, xs[i].memory.id, xs[j].memory.id)
  }

  /** A list in which the members of back follow everything that was before them ends with back. */
  lemma {:induction false} SameTail(front: seq<Candidate>, back: seq<Candidate>, ys: seq<Candidate>)
    returns (other: seq<Candidate>)
    requires DistinctIds(front + back) && DistinctIds(ys) && SameMembers(front + back, ys)
    requires Follows(front + back, |front|, ys)
    ensures ys == other + back && SameMembers(front, other) && DistinctIds(other) && DistinctIds(front)
    decreases |back|
  {
    hide DistinctIds, SameMembers, Follows;
    var xs := front + back;
    if back == [] {
      assert xs == front;
      other := ys;
      assert ys == other + back;
    } else {
      var n, k := |xs| - 1, |back| - 1;
      LastStaysLast(xs, |front|, ys);
      var last := |ys| - 1;
      assert front + back[..k] == xs[..n];
      WithoutLast(xs, |front|, ys);
      other := SameTail(front, back[..k], ys[..last]);
      assert back == back[..k] + [xs[n]];
      assert ys == ys[..last] + [xs[n]];
      assert other + back[..k] + [xs[n]] == other + back;
    }
  }

  lemma LastStaysLast(xs: seq<Candidate>, n: nat, ys: seq<Candidate>)
    requires n < |xs| && DistinctIds(ys) && SameMembers(xs, ys) && Follows(xs, n, ys)
    ensures ys != [] && ys[|ys| - 1] == xs[|xs| - 1]
  {
    var y := xs[|xs| - 1];
    assert y in xs;
    var k :| 0 <= k < |ys| && ys[k] == y;
    var z := ys[|ys| - 1];
    assert z in xs;
    var i :| 0 <= i < |xs| && xs[i] == z;
    AheadAt(ys, |ys| - 1, k);
  }

  lemma WithoutLast(xs: seq<Candidate>, n: nat, ys: seq<Candidate>)
    requires n < |xs| && ys != [] && DistinctIds(xs) && DistinctIds(ys) && SameMembers(xs, ys) && Follows(xs, n, ys)
    requires xs[|xs| - 1] == ys[|ys| - 1]
    ensures DistinctIds(xs[..|xs| - 1]) && DistinctIds(ys[..|ys| - 1])
    ensures SameMembers(xs[..|xs| - 1], ys[..|ys| - 1]) && Follows(xs[..|xs| - 1], n, ys[..|ys| - 1])
  {
    var fewer, shorter := xs[..|xs| - 1], ys[..|ys| - 1];
    LastIsNoOther(xs);
    LastIsNoOther(ys);
    forall x: Candidate ensures x in fewer <==> x in shorter {
      assert x in fewer <==> x in xs && x != xs[|xs| - 1];
      assert x in shorter <==> x in ys && x != ys[|ys| - 1];
    }
    forall i, j | 0 <= i < j < |fewer| && j >= n ensures Ahead(shorter, fewer[i].memory.id, fewer[j].memory.id) {
      assert Ahead(ys, xs[i].memory.id, xs[j].memory.id);
      var a, b :| 0 <= a < b < |ys| && ys[a].memory.id == xs[i].memory.id && ys[b].memory.id == xs[j].memory.id;
      assert b != |ys| - 1;
      assert shorter[a] == ys[a] && shorter[b] == ys[b];
    }
  }

  lemma LastIsNoOther(xs: seq<Candidate>)
    requires xs != [] && DistinctIds(xs)
    ensures forall x :: x in xs[..|xs| - 1] <==> x in xs && x != xs[|xs| - 1]
  {
    assert xs == xs[..|xs| - 1] + [xs[|xs| - 1]];
  }

  // ----- a fresh listing has the same pairs

  lemma AlikeQuiet(rule: Rule, front: seq<Candidate>, back: seq<Candidate>, front': seq<Candidate>, back': seq<Candidate>)
    requires Quiet(rule, front, back) && AlikeAll(rule, front, front') && AlikeAll(rule, back, back')
    ensures Quiet(rule, front', back')
  {
    forall i, y | 0 <= i < |front'| - 1 && y in back' ensures !Links(rule, front'[i], y) {
      var k :| 0 <= k < |back'| && back'[k] == y;
      assert back[k] in back;
      assert Links(rule, front[i], back[k]) == Links(rule, front'[i], y);
    }
    forall i, j | 0 <= i < |front'| && 0 <= j < |front'| && i != j ensures !Links(rule, front'[i], front'[j]) {
      assert Links(rule, front[i], front[j]) == Links(rule, front'[i], front'[j]);
    }
  }

  /** Behind the front nobody was promoted. */
  lemma BackKeepsScope(rule: Rule, cs: seq<Candidate>, m: nat, j: nat)
    requires DistinctIds(cs) && m <= |AllPairs(rule, cs)| && j < |cs|
    requires exists y :: y in Back(rule, Order(cs), m) && y.memory.id == cs[j].memory.id
    ensures Settled(rule, AllPairs(rule, cs)[..m], cs)[j].memory.scope == cs[j].memory.scope
  {
    hide Pairs, Front, Back, Order, SettledScope;
    var xs, done := Order(cs), AllPairs(rule, cs)[..m];
    var id := cs[j].memory.id;
    var y :| y in Back(rule, xs, m) && y.memory.id == id;
    OrderFacts(cs);
    forall p | p in done ensures p.0 != id {
      var i :| 0 <= i < m && done[i] == p;
      SurvivorsAreInFront(rule, xs, m, i);
      var l :| l in Front(rule, xs, m) && l.memory.id == Pairs(rule, xs)[i].0;
      FrontAndBackApart(rule, xs, m, l, y);
    }
    SettledScopeUntouched(rule, cs, done, id, cs[j].memory.scope);
  }

  lemma FrontAndBackApart(rule: Rule, xs: seq<Candidate>, m: nat, l: Candidate, y: Candidate)
    requires DistinctIds(xs) && m <= |Pairs(rule, xs)|
    requires l in Front(rule, xs, m) && y in Back(rule, xs, m)
    ensures l.memory.id != y.memory.id
  {
    hide Pairs, Front, Back, FirstSources;
    FrontThenBack(rule, xs, m);
    WithoutDistinct(FirstSources(rule, xs, m), xs);
    var front, back := Front(rule, xs, m), Back(rule, xs, m);
    var i :| 0 <= i < |front| && front[i] == l;
    var j :| 0 <= j < |back| && back[j] == y;
    assert (front + back)[i] == l && (front + back)[|front| + j] == y;
  }

  lemma {:induction false} WithoutDistinct(ids: set<MemoryId>, xs: seq<Candidate>)
    requires DistinctIds(xs)
    ensures DistinctIds(Without(ids, xs))
  {
    if xs != [] {
      var rest := Without(ids, xs[1..]);
      WithoutDistinct(ids, xs[1..]);
      WithoutMembers(ids, xs[1..]);
      forall k | 0 <= k < |rest| ensures rest[k].memory.id != xs[0].memory.id {
        assert rest[k] in xs[1..];
      }
    }
  }

  /** The parts of the visiting order after m pairs have settled. */
  lemma LeftParts(rule: Rule, cs: seq<Candidate>, m: nat) returns (front: seq<Candidate>, back: seq<Candidate>)
    requires Symmetric(rule) && DistinctIds(cs) && m <= |AllPairs(rule, cs)|
    ensures var left := Settled(rule, AllPairs(rule, cs)[..m], cs);
      && Order(left) == front + back
      && Quiet(rule, front, back)
      && (forall j :: 0 <= j < |cs| && (exists y :: y in back && y.memory.id == left[j].memory.id) ==>
            left[j].memory.scope == cs[j].memory.scope)
  {
    hide Pairs, Front, Back, Order, Settle, Without, Quiet, FirstSources, AlikeAll;
    var xs, done := Order(cs), AllPairs(rule, cs)[..m];
    var left := Settled(rule, done, cs);
    OrderFacts(cs);
    SettledOrder(rule, cs, done);
    FrontThenBack(rule, xs, m);
    FirstSourcesAre(rule, xs, m);
    var f, b := Front(rule, xs, m), Back(rule, xs, m);
    front, back := AlikeParts(rule, f, b, Order(left));
    FrontIsQuiet(rule, xs, m);
    AlikeQuiet(rule, f, b, front, back);
    forall j | 0 <= j < |cs| && (exists y :: y in back && y.memory.id == left[j].memory.id)
      ensures left[j].memory.scope == cs[j].memory.scope
    {
      AlikeMember(rule, b, back, left[j].memory.id);
      SettleKeepsId(rule, cs, done, cs[j]);
      BackKeepsScope(rule, cs, m, j);
    }
  }

  lemma AlikeParts(rule: Rule, f: seq<Candidate>, b: seq<Candidate>, xs: seq<Candidate>)
    returns (front: seq<Candidate>, back: seq<Candidate>)
    requires AlikeAll(rule, f + b, xs)
    ensures xs == front + back && AlikeAll(rule, f, front) && AlikeAll(rule, b, back)
  {
    front, back := xs[..|f|], xs[|f|..];
    assert forall i :: 0 <= i < |f| ==> (f + b)[i] == f[i];
    assert forall i :: 0 <= i < |b| ==> (f + b)[|f| + i] == b[i];
  }

  lemma AlikeMember(rule: Rule, xs: seq<Candidate>, ys: seq<Candidate>, id: MemoryId)
    requires AlikeAll(rule, xs, ys) && exists y :: y in ys && y.memory.id == id
    ensures exists x :: x in xs && x.memory.id == id
  {
    var y :| y in ys && y.memory.id == id;
    var k :| 0 <= k < |ys| && ys[k] == y;
    assert Alike(rule, xs[k], ys[k]) && xs[k] in xs;
  }

  lemma FirstSourcesAre(rule: Rule, xs: seq<Candidate>, m: nat)
    requires m <= |Pairs(rule, xs)|
    ensures FirstSources(rule, xs, m) == IdSet(SourceIds(Pairs(rule, xs)[..m]))
  {
  }

  /** Listing the candidates again leaves the pairs that the batch has left, in the same order. */
  lemma RelistedPairs(rule: Rule, cs: seq<Candidate>, m: nat, ds: seq<Candidate>)
    requires Symmetric(rule) && DistinctIds(cs) && Comparable(rule, Order(cs)) && m <= |AllPairs(rule, cs)|
    requires Relists(cs, Settled(rule, AllPairs(rule, cs)[..m], cs), ds)
    ensures Comparable(rule, Order(ds)) && AllPairs(rule, ds) == AllPairs(rule, cs)[m..]
  {
    hide Pairs, Order, Settle, Settled, Quiet, Comparable, Relists, SameMembers, Ahead, DistinctIds;
    var left := Settled(rule, AllPairs(rule, cs)[..m], cs);
    PairsLeft(rule, cs, m);
    RelistParts(cs, left, ds);
    OrderFacts(left);
    OrderFacts(ds);
    PreparedMembers(left, ds);
    MembersComparable(rule, Order(left), Order(ds));
    var front, back := LeftParts(rule, cs, m);
    var xs := front + back;
    forall i, j | 0 <= i < j < |xs| && j >= |front| ensures Ahead(Order(ds), xs[i].memory.id, xs[j].memory.id) {
      assert xs[j] == back[j - |front|] && back[j - |front|] in back;
      AtPositions(xs, i, j);
      StillAhead(cs, left, ds, xs[i], xs[j]);
    }
    var other := SameTail(front, back, Order(ds));
    FrontsAgree(rule, front, other, back);
  }

  lemma RelistParts(cs: seq<Candidate>, left: seq<Candidate>, ds: seq<Candidate>)
    requires Relists(cs, left, ds)
    ensures |left| == |cs| && DistinctIds(ds) && SameMembers(left, ds)
  {
  }

  lemma AtPositions(xs: seq<Candidate>, i: nat, j: nat)
    requires i < j < |xs|
    ensures Ahead(xs, xs[i].memory.id, xs[j].memory.id)
  {
  }

  lemma MembersComparable(rule: Rule, xs: seq<Candidate>, ys: seq<Candidate>)
    requires SameMembers(xs, ys) && Comparable(rule, xs)
    ensures Comparable(rule, ys)
  {
    ComparableSubset(rule, xs, ys);
  }

  lemma FrontsAgree(rule: Rule, front: seq<Candidate>, other: seq<Candidate>, back: seq<Candidate>)
    requires Quiet(rule, front, back) && DistinctIds(front) && DistinctIds(other) && SameMembers(front, other)
    ensures Pairs(rule, other + back) == Pairs(rule, front + back)
  {
    ReorderedFront(rule, front, other, back);
  }

  // ----- runs of batches

  lemma {:induction false} ScopeOfMissing(cs: seq<Candidate>, id: MemoryId)
    requires forall c :: c in cs ==> c.memory.id != id
    ensures ScopeOf(cs, id) == Session
  {
    if cs != [] {
      assert cs[0] in cs;
      ScopeOfMissing(cs[1..], id);
    }
  }

  lemma SameScopes(cs: seq<Candidate>, ds: seq<Candidate>, id: MemoryId)
    requires SameMembers(cs, ds) && DistinctIds(cs) && DistinctIds(ds)
    ensures ScopeOf(cs, id) == ScopeOf(ds, id)
  {
    if c :| c in cs && c.memory.id == id {
      ScopeOfMember(cs, c);
      ScopeOfMember(ds, c);
    } else {
      ScopeOfMissing(cs, id);
      ScopeOfMissing(ds, id);
    }
  }

  /** What pairs do to a store does not depend on the order of its listing. */
  lemma SettledMembers(rule: Rule, pairs: seq<Pair>, cs: seq<Candidate>, ds: seq<Candidate>)
    requires SameMembers(cs, ds) && DistinctIds(cs) && DistinctIds(ds)
    ensures SameMembers(Settled(rule, pairs, cs), Settled(rule, pairs, ds))
  {
    SettledMembersOneWay(rule, pairs, cs, ds);
    SettledMembersOneWay(rule, pairs, ds, cs);
  }

  lemma SettledMembersOneWay(rule: Rule, pairs: seq<Pair>, cs: seq<Candidate>, ds: seq<Candidate>)
    requires SameMembers(cs, ds) && DistinctIds(cs) && DistinctIds(ds)
    ensures forall x :: x in Settled(rule, pairs, cs) ==> x in Settled(rule, pairs, ds)
  {
    hide SettledScope;
    var a, b := Settled(rule, pairs, cs), Settled(rule, pairs, ds);
    forall x | x in a ensures x in b {
      var i :| 0 <= i < |a| && a[i] == x;
      assert cs[i] in ds;
      var j :| 0 <= j < |ds| && ds[j] == cs[i];
      forall p | p in pairs ensures ScopeOf(cs, p.1) == ScopeOf(ds, p.1) {
        SameScopes(cs, ds, p.1);
      }
      SettledScopeCongruence(rule, cs, ds, pairs, cs[i].memory.id, cs[i].memory.scope);
      assert b[j] == x;
    }
  }

  /** The store before each batch: every batch runs on a fresh listing of what the last one left. */
  ghost predicate Relisted(rule: Rule, limit: Option<nat>, stores: seq<seq<Candidate>>) {
    forall i :: 0 <= i < |stores| - 1 ==> Relists(stores[i], Batch(rule, limit, stores[i]), stores[i + 1])
  }

  /** How many of the pairs n batches settle. */
  function Reach(limit: Option<nat>, n: nat, total: nat): (m: nat)
    ensures m <= total
  {
    if n == 0 then 0 else if limit.None? then total else Min(n * limit.value, total)
  }

  lemma ReachMore(limit: Option<nat>, n: nat, total: nat)
    requires n > 0
    ensures var m := Reach(limit, 1, total); m + Reach(limit, n - 1, total - m) == Reach(limit, n, total)
  {
    if limit.Some? {
      MulStep(limit.value, n);
    }
  }

  lemma SlicesJoin(pairs: seq<Pair>, m: nat, rest: nat)
    requires m + rest <= |pairs|
    ensures pairs[m..][..rest] == pairs[m..m + rest] && pairs[m..][rest..] == pairs[m + rest..]
  {
  }

  lemma CutIsPrefix(limit: Option<nat>, n: nat, pairs: seq<Pair>)
    ensures var m := Reach(limit, n, |pairs|);
      && m <= Reach(limit, n + 1, |pairs|)
      && Cut(limit, 0, pairs[m..]) == pairs[m..Reach(limit, n + 1, |pairs|)]
  {
    if limit.Some? {
      NextSlice(limit.value, n, pairs);
    }
  }

  /** After n relisted batches the store holds what the pairs so far make of it, and the others are left. */
  lemma {:induction false} RelistedBatchesSettle(rule: Rule, limit: Option<nat>, stores: seq<seq<Candidate>>)
    requires stores != [] && Relisted(rule, limit, stores)
    requires Symmetric(rule) && DistinctIds(stores[0]) && Comparable(rule, Order(stores[0]))
    ensures var pairs, last := AllPairs(rule, stores[0]), stores[|stores| - 1];
      var m := Reach(limit, |stores| - 1, |pairs|);
      && DistinctIds(last) && Comparable(rule, Order(last)) && AllPairs(rule, last) == pairs[m..]
      && SameMembers(last, Settled(rule, pairs[..m], stores[0]))
    decreases |stores|
  {
    hide Pairs, Order, Settle, Settled, Comparable, Relists, SameMembers, DistinctIds, Batch, AllPairs, Symmetric, Reach;
    var cs, n, pairs := stores[0], |stores| - 1, AllPairs(rule, stores[0]);
    NothingYet(rule, limit, cs);
    if n > 0 {
      var m := Reach(limit, 1, |pairs|);
      var rest := Reach(limit, n - 1, |pairs| - m);
      var left, ds := Settled(rule, pairs[..m], cs), stores[1];
      BatchSettles(rule, limit, cs);
      CutIsPrefix(limit, 0, pairs);
      assert Relists(stores[0], Batch(rule, limit, stores[0]), stores[0 + 1]);
      RelistParts(cs, left, ds);
      RelistedPairs(rule, cs, m, ds);
      RelistedTail(rule, limit, stores);
      RelistedBatchesSettle(rule, limit, stores[1..]);
      ReachMore(limit, n, |pairs|);
      SlicesJoin(pairs, m, rest);
      SettledDistinct(rule, pairs[..m], cs);
      SettledMembers(rule, pairs[m..m + rest], left, ds);
      SettledSlices(rule, cs, m, m + rest);
      SameMembersChain(stores[n], Settled(rule, pairs[m..m + rest], ds), Settled(rule, pairs[m..m + rest], left));
    }
  }

  lemma NothingYet(rule: Rule, limit: Option<nat>, cs: seq<Candidate>)
    ensures var pairs := AllPairs(rule, cs);
      Reach(limit, 0, |pairs|) == 0 && pairs[0..] == pairs && SameMembers(cs, Settled(rule, pairs[..0], cs))
  {
    SettledNothing(rule, cs);
    assert AllPairs(rule, cs)[..0] == [];
  }

  lemma RelistedTail(rule: Rule, limit: Option<nat>, stores: seq<seq<Candidate>>)
    requires Relisted(rule, limit, stores) && |stores| > 1
    ensures Relisted(rule, limit, stores[1..])
  {
    var tail := stores[1..];
    forall i | 0 <= i < |tail| - 1 ensures Relists(tail[i], Batch(rule, limit, tail[i]), tail[i + 1]) {
      assert Relists(stores[i + 1], Batch(rule, limit, stores[i + 1]), stores[i + 1 + 1]);
    }
  }

  lemma SameMembersChain(xs: seq<Candidate>, ys: seq<Candidate>, zs: seq<Candidate>)
    requires SameMembers(xs, ys) && SameMembers(zs, ys)
    ensures SameMembers(xs, zs)
  {
  }

  /**
   * Confluence with fresh listings. Whatever the limit, once the batches have room for all pairs the store holds what
   * a single unlimited run leaves, and no run with any limit finds anything more to merge.
   */
  lemma RelistedBatchesAreConfluent(rule: Rule, limit: Option<nat>, stores: seq<seq<Candidate>>, other: Option<nat>)
    requires stores != [] && Relisted(rule, limit, stores)
    requires Symmetric(rule) && DistinctIds(stores[0]) && Comparable(rule, Order(stores[0]))
    requires var total := |AllPairs(rule, stores[0])|; Reach(limit, |stores| - 1, total) == total
    ensures SameMembers(stores[|stores| - 1], Batch(rule, None, stores[0]))
    ensures Simple(rule, other, stores[|stores| - 1]) == Ok([])
  {
    hide Pairs, PriorityOrder, Settled, Comparable, Relists, SameMembers, DistinctIds, Batch, AllPairs, Symmetric, Relisted,
      Reach, RunSimple, ActionPairs;
    var cs, last, pairs := stores[0], stores[|stores| - 1], AllPairs(rule, stores[0]);
    RelistedBatchesSettle(rule, limit, stores);
    BatchSettles(rule, None, cs);
    assert pairs[..|pairs|] == pairs && Cut(None, 0, pairs) == pairs;
    assert pairs[|pairs|..] == [] && Cut(other, 0, []) == [];
    BatchSettles(rule, other, last);
    RunActionsMerge(rule, other, Order(last), 0);
  }

  /**
   * Whatever cap is configured, zero and none included, as many relisted commands as there are pairs, and at least
   * one, end in the store that one unlimited run leaves.
   */
  lemma RelistedCapsEndAlike(rule: Rule, cap: Option<nat>, stores: seq<seq<Candidate>>, other: Option<nat>)
    requires |stores| > 1 && Relisted(rule, PairLimit(cap), stores)
    requires Symmetric(rule) && DistinctIds(stores[0]) && Comparable(rule, Order(stores[0]))
    requires |stores| - 1 >= |AllPairs(rule, stores[0])|
    ensures SameMembers(stores[|stores| - 1], Batch(rule, None, stores[0]))
    ensures Simple(rule, other, stores[|stores| - 1]) == Ok([])
  {
    hide Simple, AllPairs, Batch, DistinctIds, Comparable, Order, SameMembers, Relisted, Reach, PairLimit, Symmetric;
    ReachesAll(cap, |stores| - 1, |AllPairs(rule, stores[0])|);
    RelistedBatchesAreConfluent(rule, PairLimit(cap), stores, other);
  }

  lemma ReachesAll(cap: Option<nat>, n: nat, total: nat)
    requires n >= 1 && n >= total
    ensures Reach(PairLimit(cap), n, total) == total
  {
    var limit := PairLimit(cap);
    if limit.Some? {
      assert n * limit.value >= n;
    }
  }

  /** Each relisted batch merges the next slice of the pairs of the unlimited run. */
  lemma RelistedBatchesAreSlices(rule: Rule, limit: Option<nat>, stores: seq<seq<Candidate>>)
    requires stores != [] && Relisted(rule, limit, stores)
    requires Symmetric(rule) && DistinctIds(stores[0]) && Comparable(rule, Order(stores[0]))
    ensures var n, pairs := |stores| - 1, AllPairs(rule, stores[0]);
      var r := Simple(rule, limit, stores[n]);
      && r.Ok?
      && Reach(limit, n, |pairs|) <= Reach(limit, n + 1, |pairs|)
      && ActionPairs(r.value) == pairs[Reach(limit, n, |pairs|)..Reach(limit, n + 1, |pairs|)]
  {
    hide Pairs, Order, Settled, Comparable, Relists, SameMembers, DistinctIds, Batch, AllPairs, Symmetric, Relisted, RunSimple,
      ActionPairs, Reach;
    RelistedBatchesSettle(rule, limit, stores);
    BatchSettles(rule, limit, stores[|stores| - 1]);
    CutIsPrefix(limit, |stores| - 1, AllPairs(rule, stores[0]));
  }

  /** The rule that the source builds is symmetric. */
  lemma CosineIsSymmetric(threshold: Option<real>, crossScope: bool)
    ensures Symmetric(CosineRule(threshold, crossScope))
  {
    var rule := CosineRule(threshold, crossScope);
    forall a, b ensures rule.reaches(a, b) == rule.reaches(b, a) {
      CosineRuleIsSymmetric(threshold, crossScope, a, b);
    }
  }

  // ----- runs of the command, by update times

  lemma {:induction false} ActionsKeepIdentity(actions: seq<Action>, c: Candidate)
    ensures var d := ApplyActions(actions, c);
      d.memory.id == c.memory.id && (d.memory.state == Active ==> c.memory.state == Active)
  {
    if actions != [] {
      ActionsKeepIdentity(actions[1..], ApplyAction(actions[0], c));
    }
  }

  lemma BatchKeepsIdentity(rule: Rule, limit: Option<nat>, cs: seq<Candidate>)
    ensures var left := Batch(rule, limit, cs);
      && |left| == |cs|
      && forall i :: 0 <= i < |cs| ==>
           left[i].memory.id == cs[i].memory.id && (left[i].memory.state == Active ==> cs[i].memory.state == Active)
  {
    hide Simple, ApplyActions;
    var r := Simple(rule, limit, cs);
    if r.Ok? {
      forall i | 0 <= i < |cs|
        ensures Applied(r.value, cs)[i].memory.id == cs[i].memory.id
        ensures Applied(r.value, cs)[i].memory.state == Active ==> cs[i].memory.state == Active
      {
        ActionsKeepIdentity(r.value, cs[i]);
      }
    }
  }

  /** The table after a command and the update times in it, listed for the next one. */
  ghost predicate ListedNext(rule: Rule, limit: Option<nat>, stamp: MemoryId -> int, cs: seq<Candidate>,
                             later: MemoryId -> int, ds: seq<Candidate>) {
    var left := Batch(rule, limit, cs);
    && SameMembers(left, ds)
    && forall i :: 0 <= i < |left| && i < |cs| && left[i].memory.state == Active ==> Restamped(stamp, later, cs[i], left[i])
  }

  /** Commands one after another, each on the listing by the update times of its moment. */
  ghost predicate ListedRun(rule: Rule, limit: Option<nat>, stamps: seq<MemoryId -> int>, stores: seq<seq<Candidate>>) {
    && |stamps| == |stores| > 0
    && (forall k :: 0 <= k < |stores| ==> DistinctIds(stores[k]) && Listed(stamps[k], stores[k]))
    && forall k :: 0 <= k < |stores| - 1 ==> ListedNext(rule, limit, stamps[k], stores[k], stamps[k + 1], stores[k + 1])
  }

  lemma ListedRunRelists(rule: Rule, limit: Option<nat>, stamps: seq<MemoryId -> int>, stores: seq<seq<Candidate>>)
    requires ListedRun(rule, limit, stamps, stores)
    ensures Relisted(rule, limit, stores)
  {
    hide Batch, Listed, Relists, DistinctIds, SameMembers;
    forall k | 0 <= k < |stores| - 1 ensures Relists(stores[k], Batch(rule, limit, stores[k]), stores[k + 1]) {
      var left := Batch(rule, limit, stores[k]);
      BatchKeepsIdentity(rule, limit, stores[k]);
      SameIdsDistinct(stores[k], left);
      assert ListedNext(rule, limit, stamps[k], stores[k], stamps[k + 1], stores[k + 1]);
      PromotionsRelist(stamps[k], stamps[k + 1], stores[k], left, stores[k + 1]);
    }
  }

  lemma SameIdsDistinct(xs: seq<Candidate>, ys: seq<Candidate>)
    requires DistinctIds(xs) && |ys| == |xs| && forall i :: 0 <= i < |xs| ==> ys[i].memory.id == xs[i].memory.id
    ensures DistinctIds(ys)
  {
  }

  /**
   * The command's own runs: the source's similarity test, any cap, and listings by the update times that the commands
   * themselves leave. As many commands as there are pairs, and at least one, end in the memories that one unlimited
   * run leaves, and no further command finds anything to merge.
   */
  lemma CommandsEndAlike(threshold: Option<real>, crossScope: bool, cap: Option<nat>, stamps: seq<MemoryId -> int>,
                         stores: seq<seq<Candidate>>, other: Option<nat>)
    requires var rule := CosineRule(threshold, crossScope);
      && |stores| > 1 && ListedRun(rule, PairLimit(cap), stamps, stores)
      && Comparable(rule, Order(stores[0])) && |stores| - 1 >= |AllPairs(rule, stores[0])|
    ensures var rule := CosineRule(threshold, crossScope);
      && SameMembers(stores[|stores| - 1], Batch(rule, None, stores[0]))
      && Simple(rule, other, stores[|stores| - 1]) == Ok([])
  {
    hide Batch, Order, Comparable, AllPairs, Simple, Listed, ListedNext, Relisted, SameMembers, DistinctIds, CosineRule, Symmetric,
      PairLimit;
    var rule := CosineRule(threshold, crossScope);
    CosineIsSymmetric(threshold, crossScope);
    ListedRunRelists(rule, PairLimit(cap), stamps, stores);
    RelistedCapsEndAlike(rule, cap, stores, other);
  }
}
