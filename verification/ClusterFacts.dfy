/**
 * What the pairs of a clustering say about each candidate
 * (plugins/memory/src/consolidator.rs, consolidate_with_simple_strategy).
 */
module ClusterFacts {
  import opened Wrappers
  import opened Candidates
  import opened SimpleStrategy
  import opened Clusters

  function SourceIds(pairs: seq<Pair>): (ids: seq<MemoryId>)
    ensures |ids| == |pairs| && forall k :: 0 <= k < |pairs| ==> ids[k] == pairs[k].1
  {
    seq(|pairs|, k requires 0 <= k < |pairs| => pairs[k].1)
  }

  ghost predicate DistinctIds(xs: seq<Candidate>) {
    forall i, j :: 0 <= i < j < |xs| ==> xs[i].memory.id != xs[j].memory.id
  }

  lemma DistinctIdsTail(rule: Rule, xs: seq<Candidate>)
    requires xs != [] && DistinctIds(xs)
    ensures DistinctIds(xs[1..]) && DistinctIds(Unlinked(rule, xs[0], xs[1..]))
    ensures forall x :: x in xs[1..] ==> x.memory.id != xs[0].memory.id
  {
    UnlinkedDistinctIds(rule, xs[0], xs[1..]);
  }

  lemma {:induction false} UnlinkedDistinctIds(rule: Rule, l: Candidate, xs: seq<Candidate>)
    requires DistinctIds(xs)
    ensures DistinctIds(Unlinked(rule, l, xs))
  {
    if xs != [] {
      var free := Unlinked(rule, l, xs[1..]);
      LinkedMembers(rule, l, xs[1..]);
      UnlinkedDistinctIds(rule, l, xs[1..]);
      forall k | 0 <= k < |free| ensures free[k].memory.id != xs[0].memory.id {
        assert free[k] in xs[1..];
      }
    }
  }

  lemma IdsMember(cs: seq<Candidate>, id: MemoryId)
    ensures id in Ids(cs) <==> exists c :: c in cs && c.memory.id == id
  {
  }

  /** Both ends of every pair are ids of candidates. */
  lemma {:induction false} PairsAreMembers(rule: Rule, xs: seq<Candidate>)
    ensures forall p :: p in Pairs(rule, xs) ==> p.0 in Ids(xs) && p.1 in Ids(xs[if xs == [] then 0 else 1..])
    decreases |xs|
  {
    if xs != [] {
      var c, rest := xs[0], xs[1..];
      var linked, free := Linked(rule, c, rest), Unlinked(rule, c, rest);
      LinkedMembers(rule, c, rest);
      PairsAreMembers(rule, free);
      IdsCons(c, rest);
      assert xs == [c] + rest;
      forall p | p in Pairs(rule, xs) ensures p.0 in Ids(xs) && p.1 in Ids(rest) {
        if p in PairUp(c.memory.id, Ids(linked)) {
          IdsMember(linked, p.1);
          IdsMember(rest, p.1);
        } else {
          assert p in Pairs(rule, free);
          IdsMember(free, p.0);
          IdsMember(rest, p.0);
          IdsMember(free[1..], p.1);
          IdsMember(free, p.1);
          IdsMember(rest, p.1);
        }
      }
    }
  }

  // ----- each candidate is a leader, or a source exactly once

  lemma {:induction false} FilterSplitsIds(rule: Rule, l: Candidate, xs: seq<Candidate>)
    ensures multiset(Ids(xs)) == multiset(Ids(Linked(rule, l, xs))) + multiset(Ids(Unlinked(rule, l, xs)))
  {
    hide Links, Ids;
    if xs == [] {
      assert Linked(rule, l, xs) == [] == Unlinked(rule, l, xs) && Ids([]) == [] by { NoIds(); }
    } else {
      FilterSplitsIds(rule, l, xs[1..]);
      assert xs == [xs[0]] + xs[1..];
      IdsCons(xs[0], xs[1..]);
      IdsCons(xs[0], if Links(rule, l, xs[0]) then Linked(rule, l, xs[1..]) else Unlinked(rule, l, xs[1..]));
    }
  }

  lemma NoIds()
    ensures Ids([]) == []
  {
  }

  lemma SourceIdsAppend(a: seq<Pair>, b: seq<Pair>)
    ensures SourceIds(a + b) == SourceIds(a) + SourceIds(b)
  {
  }

  lemma SourceIdsOfPairUp(id: MemoryId, ids: seq<MemoryId>)
    ensures SourceIds(PairUp(id, ids)) == ids
  {
  }

  /** The leaders' ids and the sources' ids together are the candidates' ids, multiplicities included. */
  lemma {:induction false} LeadersAndSourcesPartition(rule: Rule, xs: seq<Candidate>)
    ensures multiset(Ids(Leaders(rule, xs))) + multiset(SourceIds(Pairs(rule, xs))) == multiset(Ids(xs))
    decreases |xs|
  {
    hide Ids, Linked, Unlinked, PairUp;
    if xs == [] {
      NoIds();
    } else {
      var c, rest := xs[0], xs[1..];
      var linked, free := Linked(rule, c, rest), Unlinked(rule, c, rest);
      LeadersAndSourcesPartition(rule, free);
      FilterSplitsIds(rule, c, rest);
      IdsCons(c, rest);
      IdsCons(c, Leaders(rule, free));
      SourceIdsAppend(PairUp(c.memory.id, Ids(linked)), Pairs(rule, free));
      SourceIdsOfPairUp(c.memory.id, Ids(linked));
      assert xs == [c] + rest;
    }
  }

  /** With distinct ids: no leader is a source, and no id is a source twice. */
  lemma LeadersAreNotSources(rule: Rule, xs: seq<Candidate>)
    requires DistinctIds(xs)
    ensures forall l :: l in Leaders(rule, xs) ==> l.memory.id !in SourceIds(Pairs(rule, xs))
    ensures Distinct(SourceIds(Pairs(rule, xs)))
    ensures forall p :: p in Pairs(rule, xs) ==> p.0 in Ids(Leaders(rule, xs))
  {
    LeadersAndSourcesPartition(rule, xs);
    var leaders, sources := Ids(Leaders(rule, xs)), SourceIds(Pairs(rule, xs));
    forall id ensures multiset(leaders)[id] + multiset(sources)[id] <= 1 {
      IdOnce(xs, id);
      assert multiset(Ids(xs))[id] == multiset(leaders)[id] + multiset(sources)[id];
    }
    forall l | l in Leaders(rule, xs) ensures l.memory.id !in sources {
      IdsMember(Leaders(rule, xs), l.memory.id);
      assert l.memory.id in multiset(leaders);
    }
    forall i, j | 0 <= i < j < |sources| ensures sources[i] != sources[j] {
      if sources[i] == sources[j] {
        TwiceCounts(sources, i, j);
      }
    }
    FirstsAreLeaders(rule, xs);
  }

  lemma {:induction false} IdOnce(xs: seq<Candidate>, id: MemoryId)
    requires DistinctIds(xs)
    ensures multiset(Ids(xs))[id] <= 1
  {
    if xs != [] {
      IdOnce(xs[1..], id);
      IdsCons(xs[0], xs[1..]);
      assert xs == [xs[0]] + xs[1..];
      if id == xs[0].memory.id {
        IdsMember(xs[1..], id);
      }
    }
  }

  lemma TwiceCounts(s: seq<MemoryId>, i: nat, j: nat)
    requires i < j < |s| && s[i] == s[j]
    ensures multiset(s)[s[i]] >= 2
  {
    assert s == s[..i] + [s[i]] + s[i + 1..j] + [s[j]] + s[j + 1..];
  }

  lemma {:induction false} FirstsAreLeaders(rule: Rule, xs: seq<Candidate>)
    ensures forall p :: p in Pairs(rule, xs) ==> p.0 in Ids(Leaders(rule, xs))
    decreases |xs|
  {
    if xs != [] {
      var free := Unlinked(rule, xs[0], xs[1..]);
      FirstsAreLeaders(rule, free);
      IdsCons(xs[0], Leaders(rule, free));
    }
  }

  // ----- the group of a source is that of the first leader that links to it

  ghost predicate FirstLeaderOf(rule: Rule, ls: seq<Candidate>, l: Candidate, s: Candidate) {
    s !in ls && exists g :: 0 <= g < |ls| && ls[g] == l && Links(rule, l, s) && forall h :: 0 <= h < g ==> !Links(rule, ls[h], s)
  }

  lemma FirstLeaderCons(rule: Rule, c: Candidate, ls: seq<Candidate>, l: Candidate, s: Candidate)
    ensures FirstLeaderOf(rule, [c] + ls, l, s) <==>
      s != c && s !in ls && if Links(rule, c, s) then l == c else FirstLeaderOf(rule, ls, l, s)
  {
    var all := [c] + ls;
    assert all[0] == c && s in all <==> s == c || s in ls;
    if s !in all && exists g :: 0 <= g < |all| && all[g] == l && Links(rule, l, s) && forall h :: 0 <= h < g ==> !Links(rule, all[h], s) {
      var g :| 0 <= g < |all| && all[g] == l && Links(rule, l, s) && forall h :: 0 <= h < g ==> !Links(rule, all[h], s);
      if g > 0 {
        assert !Links(rule, all[0], s);
        assert ls[g - 1] == l && forall h :: 0 <= h < g - 1 ==> ls[h] == all[h + 1];
      }
    }
    if s !in all && !Links(rule, c, s) && FirstLeaderOf(rule, ls, l, s) {
      var g :| 0 <= g < |ls| && ls[g] == l && Links(rule, l, s) && forall h :: 0 <= h < g ==> !Links(rule, ls[h], s);
      assert all[g + 1] == l && forall h :: 0 < h < g + 1 ==> all[h] == ls[h - 1];
    }
  }

  /** (l, s) is merged exactly when s is no leader and l is the first leader that links to s. */
  lemma {:induction false} PairIffFirstLeader(rule: Rule, xs: seq<Candidate>, l: Candidate, s: Candidate)
    requires DistinctIds(xs) && l in xs && s in xs
    ensures (l.memory.id, s.memory.id) in Pairs(rule, xs) <==> FirstLeaderOf(rule, Leaders(rule, xs), l, s)
    decreases |xs|
  {
    hide Links, Linked, Unlinked, FirstLeaderOf;
    var c, rest := xs[0], xs[1..];
    var linked, free := Linked(rule, c, rest), Unlinked(rule, c, rest);
    assert xs == [c] + rest;
    LinkedMembers(rule, c, rest);
    DistinctIdsTail(rule, xs);
    LeadersAreMembers(rule, free);
    FirstLeaderCons(rule, c, Leaders(rule, free), l, s);
    LeaderNeedsMember(rule, Leaders(rule, free), l, s);
    PairInFirstGroup(rule, xs, l, s);
    if l in free && s in free {
      PairIffFirstLeader(rule, free, l, s);
    } else {
      PairNeedsMembers(rule, xs, free, l, s);
    }
  }

  lemma LeaderNeedsMember(rule: Rule, ls: seq<Candidate>, l: Candidate, s: Candidate)
    ensures FirstLeaderOf(rule, ls, l, s) ==> l in ls && s !in ls
  {
  }

  /** The first group is the first candidate's. */
  lemma PairInFirstGroup(rule: Rule, xs: seq<Candidate>, l: Candidate, s: Candidate)
    requires xs != [] && DistinctIds(xs) && l in xs && s in xs
    ensures var c, rest := xs[0], xs[1..];
      (l.memory.id, s.memory.id) in PairUp(c.memory.id, Ids(Linked(rule, c, rest))) <==>
        l == c && s != c && Links(rule, c, s)
  {
    var c, rest := xs[0], xs[1..];
    assert xs == [c] + rest;
    LinkedMembers(rule, c, rest);
    IdsMember(Linked(rule, c, rest), s.memory.id);
    SameIdSame(xs, l, c);
    if s.memory.id in Ids(Linked(rule, c, rest)) {
      var t :| t in Linked(rule, c, rest) && t.memory.id == s.memory.id;
      SameIdSame(xs, t, s);
      DistinctIdsTail(rule, xs);
    }
    var pairs, ids := PairUp(c.memory.id, Ids(Linked(rule, c, rest))), Ids(Linked(rule, c, rest));
    if l == c && s.memory.id in ids {
      var k :| 0 <= k < |ids| && ids[k] == s.memory.id;
      assert pairs[k] == (l.memory.id, s.memory.id);
    }
  }

  lemma SameIdSame(xs: seq<Candidate>, a: Candidate, b: Candidate)
    requires DistinctIds(xs) && a in xs && b in xs
    ensures a.memory.id == b.memory.id ==> a == b
  {
  }

  lemma PairNeedsMembers(rule: Rule, xs: seq<Candidate>, ys: seq<Candidate>, l: Candidate, s: Candidate)
    requires DistinctIds(xs) && l in xs && s in xs && forall y :: y in ys ==> y in xs
    requires l !in ys || s !in ys
    ensures (l.memory.id, s.memory.id) !in Pairs(rule, ys)
  {
    PairsAreMembers(rule, ys);
    if (l.memory.id, s.memory.id) in Pairs(rule, ys) {
      IdsMember(ys, l.memory.id);
      IdsMember(ys[if ys == [] then 0 else 1..], s.memory.id);
      var a :| a in ys && a.memory.id == l.memory.id;
      var b :| b in ys[if ys == [] then 0 else 1..] && b.memory.id == s.memory.id;
      assert b in ys;
      SameIdSame(xs, a, l);
      SameIdSame(xs, b, s);
    }
  }
}
