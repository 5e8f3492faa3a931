/**
 * What is left of the clustering after the first of its sources are gone
 * (plugins/memory/src/consolidator.rs, consolidate_with_simple_strategy).
 */
module BoundedBatches {
  import opened Candidates
  import opened SimpleStrategy
  import opened Clusters
  import opened ClusterFacts
  import opened Confluence

  // ----- removing the first sources of a clustering

  function Without(ids: set<MemoryId>, xs: seq<Candidate>): (r: seq<Candidate>) {
    if xs == [] then []
    else if xs[0].memory.id in ids then Without(ids, xs[1..])
    else [xs[0]] + Without(ids, xs[1..])
  }

  function IdSet(ids: seq<MemoryId>): set<MemoryId> {
    set id | id in ids
  }

  lemma WithoutCons(ids: set<MemoryId>, c: Candidate, xs: seq<Candidate>)
    ensures Without(ids, [c] + xs) == if c.memory.id in ids then Without(ids, xs) else [c] + Without(ids, xs)
  {
  }

  lemma {:induction false} WithoutMembers(ids: set<MemoryId>, xs: seq<Candidate>)
    ensures forall x :: x in Without(ids, xs) <==> x in xs && x.memory.id !in ids
  {
    if xs != [] {
      WithoutMembers(ids, xs[1..]);
      assert xs == [xs[0]] + xs[1..];
    }
  }

  lemma {:induction false} WithoutNothing(ids: set<MemoryId>, xs: seq<Candidate>)
    requires forall x :: x in xs ==> x.memory.id !in ids
    ensures Without(ids, xs) == xs
  {
    if xs != [] {
      WithoutNothing(ids, xs[1..]);
    }
  }

  /** Removing candidates commutes with asking which ones a leader links to. */
  lemma {:induction false} WithoutCommutes(rule: Rule, ids: set<MemoryId>, l: Candidate, xs: seq<Candidate>)
    ensures Linked(rule, l, Without(ids, xs)) == Without(ids, Linked(rule, l, xs))
    ensures Unlinked(rule, l, Without(ids, xs)) == Without(ids, Unlinked(rule, l, xs))
  {
    if xs != [] {
      WithoutCommutes(rule, ids, l, xs[1..]);
    }
  }

  /** Removing a prefix of distinct candidates, and ids that are not there, leaves the suffix. */
  lemma {:induction false} WithoutPrefix(ids: set<MemoryId>, xs: seq<Candidate>, n: nat)
    requires n <= |xs|
    requires forall i :: 0 <= i < n ==> xs[i].memory.id in ids
    requires forall i :: n <= i < |xs| ==> xs[i].memory.id !in ids
    ensures Without(ids, xs) == xs[n..]
  {
    if n == 0 {
      WithoutNothing(ids, xs);
    } else {
      WithoutPrefix(ids, xs[1..], n - 1);
    }
  }

  lemma {:induction false} LinkedDistinctIds(rule: Rule, l: Candidate, xs: seq<Candidate>)
    requires DistinctIds(xs)
    ensures DistinctIds(Linked(rule, l, xs))
    ensures forall a, b :: a in Linked(rule, l, xs) && b in Unlinked(rule, l, xs) ==> a.memory.id != b.memory.id
  {
    LinkedMembers(rule, l, xs);
    forall a, b | a in Linked(rule, l, xs) && b in Unlinked(rule, l, xs) ensures a.memory.id != b.memory.id {
      SameIdSame(xs, a, b);
    }
    if xs != [] {
      LinkedDistinctIds(rule, l, xs[1..]);
      var rest := Linked(rule, l, xs[1..]);
      LinkedMembers(rule, l, xs[1..]);
      forall k | 0 <= k < |rest| ensures rest[k].memory.id != xs[0].memory.id {
        assert rest[k] in xs[1..];
      }
    }
  }

  /** The sources of the first m pairs. */
  function FirstSources(rule: Rule, xs: seq<Candidate>, m: nat): set<MemoryId>
    requires m <= |Pairs(rule, xs)|
  {
    IdSet(SourceIds(Pairs(rule, xs)[..m]))
  }

  lemma FirstSourcesSplit(rule: Rule, xs: seq<Candidate>, m: nat)
    requires xs != [] && m <= |Pairs(rule, xs)|
    ensures var linked, free := Linked(rule, xs[0], xs[1..]), Unlinked(rule, xs[0], xs[1..]);
      && (m <= |linked| ==> FirstSources(rule, xs, m) == IdSet(Ids(linked[..m])))
      && (m > |linked| ==> m - |linked| <= |Pairs(rule, free)|)
      && (m > |linked| ==>
            FirstSources(rule, xs, m) == IdSet(Ids(linked)) + FirstSources(rule, free, m - |linked|))
  {
    hide Pairs, Linked, Unlinked, Ids, IdSet;
    var linked, free := Linked(rule, xs[0], xs[1..]), Unlinked(rule, xs[0], xs[1..]);
    var mine, theirs := PairUp(xs[0].memory.id, Ids(linked)), Pairs(rule, free);
    PairsFirst(rule, xs[0], xs[1..]);
    assert xs == [xs[0]] + xs[1..];
    if m <= |linked| {
      assert (mine + theirs)[..m] == mine[..m] == PairUp(xs[0].memory.id, Ids(linked)[..m]);
      IdsPrefix(linked, m);
      SourceIdsOfPairUp(xs[0].memory.id, Ids(linked[..m]));
    } else {
      assert (mine + theirs)[..m] == mine + theirs[..m - |linked|];
      SourceIdsAppend(mine, theirs[..m - |linked|]);
      SourceIdsOfPairUp(xs[0].memory.id, Ids(linked));
      IdSetAppend(Ids(linked), SourceIds(theirs[..m - |linked|]));
    }
  }

  lemma IdSetAppend(a: seq<MemoryId>, b: seq<MemoryId>)
    ensures IdSet(a + b) == IdSet(a) + IdSet(b)
  {
  }

  lemma FirstSourcesAreUnlinked(rule: Rule, xs: seq<Candidate>, m: nat)
    requires m <= |Pairs(rule, xs)|
    ensures forall id :: id in FirstSources(rule, xs, m) ==> id in Ids(xs[if xs == [] then 0 else 1..])
  {
    PairsAreMembers(rule, xs);
    var pairs := Pairs(rule, xs);
    forall id | id in FirstSources(rule, xs, m) ensures id in Ids(xs[if xs == [] then 0 else 1..]) {
      var k :| 0 <= k < m && SourceIds(pairs[..m])[k] == id;
      assert pairs[k] in pairs;
    }
  }

  /** Removing the sources of the first m pairs leaves exactly the other pairs. */
  lemma {:induction false} RemainingPairs(rule: Rule, xs: seq<Candidate>, m: nat)
    requires DistinctIds(xs) && m <= |Pairs(rule, xs)|
    ensures Pairs(rule, Without(FirstSources(rule, xs, m), xs)) == Pairs(rule, xs)[m..]
    decreases |xs|
  {
    if xs == [] {
      assert Without(FirstSources(rule, xs, m), xs) == [];
    } else {
      hide FirstSources, Links, Linked, Unlinked, DistinctIds, Ids, PairUp, Pairs, Without;
      var l, rest := xs[0], xs[1..];
      assert xs == [l] + rest;
      PairsFirst(rule, l, rest);
      var linked, free, gone := Linked(rule, l, rest), Unlinked(rule, l, rest), FirstSources(rule, xs, m);
      DistinctIdsTail(rule, xs);
      FirstSourcesSplit(rule, xs, m);
      LeaderStays(rule, xs, m);
      WithoutCommutes(rule, gone, l, rest);
      var left := Without(gone, rest);
      WithoutCons(gone, l, rest);
      PairsFirst(rule, l, left);
      if m <= |linked| {
        GoneFromFirst(rule, l, rest, m);
        DropPairs(l.memory.id, Ids(linked), Pairs(rule, free), m, linked);
      } else {
        var n := m - |linked|;
        GoneFromRest(rule, l, rest, n);
        RemainingPairs(rule, free, n);
        DropPairs(l.memory.id, Ids(linked), Pairs(rule, free), m, linked);
      }
    }
  }

  lemma LeaderStays(rule: Rule, xs: seq<Candidate>, m: nat)
    requires xs != [] && DistinctIds(xs) && m <= |Pairs(rule, xs)|
    ensures xs[0].memory.id !in FirstSources(rule, xs, m)
  {
    FirstSourcesAreUnlinked(rule, xs, m);
    IdsMember(xs[1..], xs[0].memory.id);
    DistinctIdsTail(rule, xs);
  }

  /** When the first m sources all belong to the first group. */
  lemma GoneFromFirst(rule: Rule, l: Candidate, rest: seq<Candidate>, m: nat)
    requires DistinctIds(rest) && m <= |Linked(rule, l, rest)|
    ensures var linked, free := Linked(rule, l, rest), Unlinked(rule, l, rest);
      var gone := IdSet(Ids(linked[..m]));
      Without(gone, linked) == linked[m..] && Without(gone, free) == free
  {
    var linked, free := Linked(rule, l, rest), Unlinked(rule, l, rest);
    var gone := IdSet(Ids(linked[..m]));
    LinkedDistinctIds(rule, l, rest);
    forall id | id in gone ensures exists k :: 0 <= k < m && linked[k].memory.id == id {
      IdsMember(linked[..m], id);
    }
    forall k | 0 <= k < m ensures linked[k].memory.id in gone {
      assert linked[k] in linked[..m];
      IdsMember(linked[..m], linked[k].memory.id);
    }
    WithoutPrefix(gone, linked, m);
    WithoutNothing(gone, free);
  }

  /** When the whole first group is gone, and n sources of the others. */
  lemma GoneFromRest(rule: Rule, l: Candidate, rest: seq<Candidate>, n: nat)
    requires DistinctIds(rest) && n <= |Pairs(rule, Unlinked(rule, l, rest))|
    ensures var linked, free := Linked(rule, l, rest), Unlinked(rule, l, rest);
      var gone := IdSet(Ids(linked)) + FirstSources(rule, free, n);
      Without(gone, linked) == [] && Without(gone, free) == Without(FirstSources(rule, free, n), free)
  {
    var linked, free := Linked(rule, l, rest), Unlinked(rule, l, rest);
    var first, others := IdSet(Ids(linked)), FirstSources(rule, free, n);
    LinkedDistinctIds(rule, l, rest);
    forall k | 0 <= k < |linked| ensures linked[k].memory.id in first {
      IdsMember(linked, linked[k].memory.id);
    }
    WithoutPrefix(first + others, linked, |linked|);
    forall x | x in free ensures x.memory.id !in first {
      IdsMember(linked, x.memory.id);
    }
    WithoutUnion(first, others, free);
  }

  lemma {:induction false} WithoutUnion(a: set<MemoryId>, b: set<MemoryId>, xs: seq<Candidate>)
    requires forall x :: x in xs ==> x.memory.id !in a
    ensures Without(a + b, xs) == Without(b, xs)
  {
    if xs != [] {
      WithoutUnion(a, b, xs[1..]);
    }
  }

  lemma DropPairs(id: MemoryId, ids: seq<MemoryId>, theirs: seq<Pair>, m: nat, linked: seq<Candidate>)
    requires m <= |ids| + |theirs| && ids == Ids(linked)
    ensures m <= |ids| ==> (PairUp(id, ids) + theirs)[m..] == PairUp(id, Ids(linked[m..])) + theirs
    ensures m >= |ids| ==> (PairUp(id, ids) + theirs)[m..] == theirs[m - |ids|..]
    ensures PairUp(id, Ids([])) == []
  {
    if m <= |ids| {
      forall k | 0 <= k < |ids| - m ensures Ids(linked[m..])[k] == ids[m + k] {
        IdAt(linked[m..], k);
        IdAt(linked, m + k);
      }
    }
  }
}
