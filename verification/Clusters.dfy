/**
 * What the greedy loops of plugins/memory/src/consolidator.rs compute: the first-fit clustering of the visiting
 * order, as a list of (survivor, source) pairs. A pair budget cuts that list, nothing else.
 */
module Clusters {
  import opened Wrappers
  import opened Candidates
  import opened SimpleStrategy

  type Pair = (MemoryId, MemoryId)

  /** May be merged into one group: same scope unless scopes are crossed, and similar enough. */
  predicate Links(rule: Rule, l: Candidate, o: Candidate) {
    SameZone(rule, l, o) && rule.reaches(Vector(l), Vector(o))
  }

  function Linked(rule: Rule, l: Candidate, xs: seq<Candidate>): (r: seq<Candidate>)
    ensures |r| <= |xs|
  {
    if xs == [] then []
    else if Links(rule, l, xs[0]) then [xs[0]] + Linked(rule, l, xs[1..])
    else Linked(rule, l, xs[1..])
  }

  function Unlinked(rule: Rule, l: Candidate, xs: seq<Candidate>): (r: seq<Candidate>)
    ensures |r| <= |xs|
  {
    if xs == [] then []
    else if Links(rule, l, xs[0]) then Unlinked(rule, l, xs[1..])
    else [xs[0]] + Unlinked(rule, l, xs[1..])
  }

  lemma {:induction false} LinkedMembers(rule: Rule, l: Candidate, xs: seq<Candidate>)
    ensures forall x :: x in Linked(rule, l, xs) <==> x in xs && Links(rule, l, x)
    ensures forall x :: x in Unlinked(rule, l, xs) <==> x in xs && !Links(rule, l, x)
  {
    if xs != [] {
      LinkedMembers(rule, l, xs[1..]);
      assert xs == [xs[0]] + xs[1..];
    }
  }

  function PairUp(id: MemoryId, sources: seq<MemoryId>): (ps: seq<Pair>)
    ensures |ps| == |sources| && forall k :: 0 <= k < |ps| ==> ps[k] == (id, sources[k])
  {
    seq(|sources|, k requires 0 <= k < |sources| => (id, sources[k]))
  }

  /** The leaders of the clustering: each is the first candidate that no earlier leader links to. */
  function Leaders(rule: Rule, xs: seq<Candidate>): seq<Candidate>
    decreases |xs|
  {
    if xs == [] then [] else [xs[0]] + Leaders(rule, Unlinked(rule, xs[0], xs[1..]))
  }

  /** Every (leader, source) pair, leader by leader. */
  function Pairs(rule: Rule, xs: seq<Candidate>): seq<Pair>
    decreases |xs|
  {
    if xs == [] then []
    else PairUp(xs[0].memory.id, Ids(Linked(rule, xs[0], xs[1..]))) + Pairs(rule, Unlinked(rule, xs[0], xs[1..]))
  }

  /** The pairs that a list of actions merges. */
  function ActionPairs(actions: seq<Action>): seq<Pair> {
    if actions == [] then []
    else match actions[0]
      case Merged(ids, result) => PairUp(result.id, ids) + ActionPairs(actions[1..])
      case Contradiction(_, _, _) => ActionPairs(actions[1..])
  }

  lemma {:induction false} ActionPairsAppend(a: seq<Action>, b: seq<Action>)
    ensures ActionPairs(a + b) == ActionPairs(a) + ActionPairs(b)
  {
    if a == [] {
      assert a + b == b;
    } else {
      assert (a + b)[1..] == a[1..] + b;
      ActionPairsAppend(a[1..], b);
    }
  }

  /** Vectors that may be compared have one positive dimension. */
  ghost predicate Comparable(rule: Rule, xs: seq<Candidate>) {
    forall a, b :: a in xs && b in xs && SameZone(rule, a, b) ==> |Vector(a)| == |Vector(b)| > 0
  }

  lemma IdAt(cs: seq<Candidate>, i: nat)
    requires i < |cs|
    ensures Ids(cs)[i] == cs[i].memory.id
  {
  }

  lemma IdsCons(c: Candidate, cs: seq<Candidate>)
    ensures Ids([c] + cs) == [c.memory.id] + Ids(cs)
  {
    var all := [c] + cs;
    forall i | 0 <= i < |all| ensures Ids(all)[i] == ([c.memory.id] + Ids(cs))[i] {
      IdAt(all, i);
      if i > 0 { IdAt(cs, i - 1); }
    }
  }

  // ----- the loops compute the pairs

  /** How many of `wanted` pairs the budget still allows. */
  function Allowed(limit: Option<nat>, processed: nat, wanted: nat): nat {
    if limit.Some? && processed <= limit.value then Min(limit.value - processed, wanted)
    else if limit.Some? then 0 else wanted
  }

  lemma ComparableSubset(rule: Rule, xs: seq<Candidate>, ys: seq<Candidate>)
    requires Comparable(rule, xs) && forall y :: y in ys ==> y in xs
    ensures Comparable(rule, ys)
  {
  }

  /** r takes the candidates that l links to, as many as the budget allows, and keeps the others. */
  ghost predicate Takes(rule: Rule, limit: Option<nat>, l: Candidate, others: seq<Candidate>, processed: nat, r: ScanResult) {
    var linked := Linked(rule, l, others);
    var taken := Allowed(limit, processed, |linked|);
    && r.Ok?
    && r.value.sources == linked[..taken]
    && r.value.processed == processed + taken
    && (r.value.limitReached <==> taken < |linked|)
    && (taken == |linked| ==> r.value.kept == Unlinked(rule, l, others))
  }

  lemma TakesOneMore(rule: Rule, limit: Option<nat>, l: Candidate, others: seq<Candidate>, processed: nat, r: ScanResult)
    requires others != [] && Links(rule, l, others[0]) && !BudgetSpent(limit, processed)
    requires Takes(rule, limit, l, others[1..], processed + 1, r)
    ensures Takes(rule, limit, l, others, processed, Taking(others[0], r))
  {
  }

  /** With comparable vectors the inner loop takes the linked candidates. */
  lemma {:induction false} ScanTakesLinked(rule: Rule, limit: Option<nat>, l: Candidate, others: seq<Candidate>, processed: nat)
    requires limit.Some? ==> processed <= limit.value
    requires Comparable(rule, [l] + others)
    ensures Takes(rule, limit, l, others, processed, ScanSimple(rule, limit, l, others, processed))
  {
    if others != [] {
      var c := others[0];
      assert Compare(rule, l, c) == Ok(Links(rule, l, c)) by {
        assert l in [l] + others && c in [l] + others;
      }
      ComparableSubset(rule, [l] + others, [l] + others[1..]);
      if !Links(rule, l, c) {
        ScanTakesLinked(rule, limit, l, others[1..], processed);
      } else if !BudgetSpent(limit, processed) {
        ScanTakesLinked(rule, limit, l, others[1..], processed + 1);
        TakesOneMore(rule, limit, l, others, processed, ScanSimple(rule, limit, l, others[1..], processed + 1));
      }
    }
  }

  lemma SimpleActionPairs(rule: Rule, l: Candidate, sources: seq<Candidate>)
    ensures ActionPairs(SimpleAction(rule, l, sources)) == PairUp(l.memory.id, Ids(sources))
  {
  }

  lemma {:induction false} IdsPrefix(cs: seq<Candidate>, n: nat)
    requires n <= |cs|
    ensures Ids(cs[..n]) == Ids(cs)[..n]
  {
    forall i | 0 <= i < n ensures Ids(cs[..n])[i] == Ids(cs)[..n][i] {
      IdAt(cs[..n], i);
      IdAt(cs, i);
    }
  }

  /** The pairs that the budget still allows. */
  function Cut(limit: Option<nat>, processed: nat, pairs: seq<Pair>): seq<Pair> {
    pairs[..Allowed(limit, processed, |pairs|)]
  }

  lemma CutAppend(limit: Option<nat>, processed: nat, mine: seq<Pair>, theirs: seq<Pair>)
    requires limit.Some? ==> processed <= limit.value
    ensures var taken := Allowed(limit, processed, |mine|);
      Cut(limit, processed, mine + theirs) ==
        if taken < |mine| then mine[..taken] else mine + Cut(limit, processed + |mine|, theirs)
  {
  }

  lemma RunFirst(rule: Rule, limit: Option<nat>, l: Candidate, others: seq<Candidate>, processed: nat)
    requires Takes(rule, limit, l, others, processed, ScanSimple(rule, limit, l, others, processed))
    ensures var linked := Linked(rule, l, others);
      var taken := Allowed(limit, processed, |linked|);
      RunSimple(rule, limit, [l] + others, processed) ==
        if taken < |linked| then Ok(SimpleAction(rule, l, linked[..taken]))
        else After(SimpleAction(rule, l, linked[..taken]),
                   RunSimple(rule, limit, Unlinked(rule, l, others), processed + taken))
  {
    hide ScanSimple, Linked, Unlinked, SimpleAction;
    assert ([l] + others)[1..] == others;
  }

  /** A run of the simple strategy merges the clustering's pairs in order, as many as the budget allows. */
  lemma {:induction false} RunMergesPairs(rule: Rule, limit: Option<nat>, xs: seq<Candidate>, processed: nat)
    returns (actions: seq<Action>)
    requires limit.Some? ==> processed <= limit.value
    requires Comparable(rule, xs)
    ensures RunSimple(rule, limit, xs, processed) == Ok(actions)
    ensures ActionPairs(actions) == Cut(limit, processed, Pairs(rule, xs))
    decreases |xs|
  {
    hide ScanSimple, SimpleAction, Linked, Unlinked, PairUp, Ids;
    if xs == [] {
      actions := [];
    } else {
      var l, others := xs[0], xs[1..];
      assert xs == [l] + others;
      ScanTakesLinked(rule, limit, l, others, processed);
      var linked, kept := Linked(rule, l, others), Unlinked(rule, l, others);
      var taken := Allowed(limit, processed, |linked|);
      actions := SimpleAction(rule, l, linked[..taken]);
      FirstActionPairs(rule, l, linked, taken);
      CutAppend(limit, processed, PairUp(l.memory.id, Ids(linked)), Pairs(rule, kept));
      RunFirst(rule, limit, l, others, processed);
      if taken == |linked| {
        LinkedMembers(rule, l, others);
        ComparableSubset(rule, xs, kept);
        var rest := RunMergesPairs(rule, limit, kept, processed + taken);
        ActionPairsAppend(actions, rest);
        assert PairUp(l.memory.id, Ids(linked))[..taken] == PairUp(l.memory.id, Ids(linked));
        actions := actions + rest;
      }
    }
  }

  lemma FirstActionPairs(rule: Rule, l: Candidate, linked: seq<Candidate>, taken: nat)
    requires taken <= |linked|
    ensures ActionPairs(SimpleAction(rule, l, linked[..taken])) == PairUp(l.memory.id, Ids(linked))[..taken]
  {
    SimpleActionPairs(rule, l, linked[..taken]);
    IdsPrefix(linked, taken);
  }

  // ----- the clustering is the first-fit one

  /** a stands before b in xs. */
  ghost predicate Precedes(xs: seq<Candidate>, a: Candidate, b: Candidate) {
    exists i, j :: 0 <= i < j < |xs| && xs[i] == a && xs[j] == b
  }

  /**
   * ls is a maximal independent set chosen first-fit from xs: its members stand in the order of xs, none links
   * to a later one, and every other candidate is linked to by a member that stands before it.
   */
  ghost predicate FirstFit(rule: Rule, xs: seq<Candidate>, ls: seq<Candidate>) {
    && (forall l :: l in ls ==> l in xs)
    && (forall i, j :: 0 <= i < j < |ls| ==> Precedes(xs, ls[i], ls[j]) && !Links(rule, ls[i], ls[j]))
    && (forall x :: x in xs && x !in ls ==> exists l :: l in ls && Precedes(xs, l, x) && Links(rule, l, x))
  }

  lemma {:induction false} UnlinkedKeepsOrder(rule: Rule, l: Candidate, xs: seq<Candidate>, a: Candidate, b: Candidate)
    ensures Precedes(Unlinked(rule, l, xs), a, b) ==> Precedes(xs, a, b)
    ensures Precedes(xs, a, b) && !Links(rule, l, a) && !Links(rule, l, b) ==> Precedes(Unlinked(rule, l, xs), a, b)
  {
    if xs == [] {
      assert Unlinked(rule, l, xs) == [];
    } else {
      UnlinkedKeepsOrder(rule, l, xs[1..], a, b);
      LinkedMembers(rule, l, xs[1..]);
      PrecedesCons(xs[0], xs[1..], a, b);
      assert xs == [xs[0]] + xs[1..];
      if !Links(rule, l, xs[0]) {
        PrecedesCons(xs[0], Unlinked(rule, l, xs[1..]), a, b);
      }
    }
  }

  lemma PrecedesCons(c: Candidate, xs: seq<Candidate>, a: Candidate, b: Candidate)
    ensures Precedes([c] + xs, a, b) <==> (a == c && b in xs) || Precedes(xs, a, b)
  {
    var all := [c] + xs;
    if Precedes(all, a, b) {
      var i, j :| 0 <= i < j < |all| && all[i] == a && all[j] == b;
      assert all[j] == xs[j - 1];
      if i > 0 {
        assert all[i] == xs[i - 1];
      }
    }
    if a == c && b in xs {
      var j :| 0 <= j < |xs| && xs[j] == b;
      assert all[0] == a && all[j + 1] == b;
    }
    if Precedes(xs, a, b) {
      var i, j :| 0 <= i < j < |xs| && xs[i] == a && xs[j] == b;
      assert all[i + 1] == a && all[j + 1] == b;
    }
  }

  lemma {:induction false} LeadersAreMembers(rule: Rule, xs: seq<Candidate>)
    ensures forall l :: l in Leaders(rule, xs) ==> l in xs
    decreases |xs|
  {
    if xs != [] {
      LinkedMembers(rule, xs[0], xs[1..]);
      LeadersAreMembers(rule, Unlinked(rule, xs[0], xs[1..]));
    }
  }

  /** The leaders of a run are a first-fit choice from the visiting order. */
  lemma {:induction false} LeadersAreFirstFit(rule: Rule, xs: seq<Candidate>)
    ensures FirstFit(rule, xs, Leaders(rule, xs))
    decreases |xs|
  {
    if xs != [] {
      var c, rest := xs[0], xs[1..];
      var free := Unlinked(rule, c, rest);
      var ls, tail := Leaders(rule, xs), Leaders(rule, free);
      assert xs == [c] + rest;
      LinkedMembers(rule, c, rest);
      LeadersAreFirstFit(rule, free);
      LeadersAreMembers(rule, xs);
      forall i, j | 0 <= i < j < |ls| ensures Precedes(xs, ls[i], ls[j]) && !Links(rule, ls[i], ls[j]) {
        assert ls[j] == tail[j - 1] && ls[j] in tail;
        PrecedesCons(c, rest, ls[i], ls[j]);
        if i > 0 {
          assert ls[i] == tail[i - 1];
          UnlinkedKeepsOrder(rule, c, rest, ls[i], ls[j]);
        }
      }
      forall x | x in xs && x !in ls ensures exists l :: l in ls && Precedes(xs, l, x) && Links(rule, l, x) {
        assert ls[0] == c;
        if Links(rule, c, x) {
          PrecedesCons(c, rest, c, x);
          assert c in ls && Precedes(xs, c, x);
        } else {
          assert x in free && x !in tail;
          var l :| l in tail && Precedes(free, l, x) && Links(rule, l, x);
          UnlinkedKeepsOrder(rule, c, rest, l, x);
          PrecedesCons(c, rest, l, x);
          assert l in ls;
        }
      }
    }
  }

  lemma {:induction false} UnlinkedDistinct(rule: Rule, l: Candidate, xs: seq<Candidate>)
    requires Distinct(xs)
    ensures Distinct(Unlinked(rule, l, xs))
  {
    if xs != [] {
      DistinctCons(xs[0], xs[1..]);
      assert xs == [xs[0]] + xs[1..];
      LinkedMembers(rule, l, xs[1..]);
      UnlinkedDistinct(rule, l, xs[1..]);
      DistinctCons(xs[0], Unlinked(rule, l, xs[1..]));
    }
  }

  lemma NothingPrecedesFirst(xs: seq<Candidate>, a: Candidate)
    requires xs != [] && Distinct(xs)
    ensures !Precedes(xs, a, xs[0])
  {
  }

  /** There is only one first-fit choice, so it is the run's. */
  lemma {:induction false} FirstFitIsUnique(rule: Rule, xs: seq<Candidate>, ls: seq<Candidate>)
    requires Distinct(xs) && FirstFit(rule, xs, ls)
    ensures ls == Leaders(rule, xs)
    decreases |xs|
  {
    assert ls != [] ==> ls[0] in ls;
    if xs != [] {
      var c, rest := xs[0], xs[1..];
      assert xs == [c] + rest;
      FirstIsLeader(rule, xs, ls);
      var free, tail := Unlinked(rule, c, rest), ls[1..];
      assert ls == [c] + tail;
      DistinctCons(c, rest);
      UnlinkedDistinct(rule, c, rest);
      TailIsFirstFit(rule, c, rest, tail);
      FirstFitIsUnique(rule, free, tail);
    }
  }

  lemma FirstIsLeader(rule: Rule, xs: seq<Candidate>, ls: seq<Candidate>)
    requires xs != [] && Distinct(xs) && FirstFit(rule, xs, ls)
    ensures ls != [] && ls[0] == xs[0]
  {
    assert xs[0] in ls by {
      forall a ensures !Precedes(xs, a, xs[0]) {
        NothingPrecedesFirst(xs, a);
      }
    }
    var k :| 0 <= k < |ls| && ls[k] == xs[0];
    assert k > 0 ==> Precedes(xs, ls[0], ls[k]);
    NothingPrecedesFirst(xs, ls[0]);
  }

  lemma TailIsFirstFit(rule: Rule, c: Candidate, rest: seq<Candidate>, tail: seq<Candidate>)
    requires Distinct([c] + rest) && FirstFit(rule, [c] + rest, [c] + tail)
    ensures FirstFit(rule, Unlinked(rule, c, rest), tail)
  {
    hide Links, Unlinked, Precedes, Distinct;
    var free := Unlinked(rule, c, rest);
    forall l | l in tail ensures l in free && l != c && !Links(rule, c, l) {
      TailIsFree(rule, c, rest, tail, l);
    }
    forall i, j | 0 <= i < j < |tail| ensures Precedes(free, tail[i], tail[j]) && !Links(rule, tail[i], tail[j]) {
      assert tail[i] in tail && tail[j] in tail;
      TailIsOrdered(rule, c, rest, tail, i, j);
    }
    forall x | x in free && x !in tail ensures exists l :: l in tail && Precedes(free, l, x) && Links(rule, l, x) {
      TailCovers(rule, c, rest, tail, x);
    }
  }

  lemma TailIsFree(rule: Rule, c: Candidate, rest: seq<Candidate>, tail: seq<Candidate>, l: Candidate)
    requires Distinct([c] + rest) && FirstFit(rule, [c] + rest, [c] + tail) && l in tail
    ensures l in Unlinked(rule, c, rest) && l != c && !Links(rule, c, l)
  {
    hide Links, Unlinked, Linked;
    var xs, ls := [c] + rest, [c] + tail;
    LinkedMembers(rule, c, rest);
    var j :| 0 <= j < |tail| && tail[j] == l;
    assert ls[0] == c && ls[j + 1] == l && l in ls;
    assert Precedes(xs, ls[0], ls[j + 1]) && !Links(rule, ls[0], ls[j + 1]);
    NothingPrecedesFirst(xs, c);
    assert l in xs && l != c;
  }

  lemma TailIsOrdered(rule: Rule, c: Candidate, rest: seq<Candidate>, tail: seq<Candidate>, i: nat, j: nat)
    requires FirstFit(rule, [c] + rest, [c] + tail) && i < j < |tail| && tail[i] != c && tail[j] != c
    requires !Links(rule, c, tail[i]) && !Links(rule, c, tail[j])
    ensures Precedes(Unlinked(rule, c, rest), tail[i], tail[j]) && !Links(rule, tail[i], tail[j])
  {
    hide Links, Unlinked, Precedes;
    var ls := [c] + tail;
    assert ls[i + 1] == tail[i] && ls[j + 1] == tail[j];
    PrecedesCons(c, rest, tail[i], tail[j]);
    UnlinkedKeepsOrder(rule, c, rest, tail[i], tail[j]);
  }

  lemma TailCovers(rule: Rule, c: Candidate, rest: seq<Candidate>, tail: seq<Candidate>, x: Candidate)
    requires Distinct([c] + rest) && FirstFit(rule, [c] + rest, [c] + tail)
    requires x in Unlinked(rule, c, rest) && x !in tail
    ensures exists l :: l in tail && Precedes(Unlinked(rule, c, rest), l, x) && Links(rule, l, x)
  {
    hide Links, Unlinked, Precedes, Distinct;
    var xs, ls := [c] + rest, [c] + tail;
    LinkedMembers(rule, c, rest);
    DistinctCons(c, rest);
    assert x in rest && x != c && x in xs && x !in ls;
    var l :| l in ls && Precedes(xs, l, x) && Links(rule, l, x);
    assert l != c && l in tail;
    TailIsFree(rule, c, rest, tail, l);
    PrecedesCons(c, rest, l, x);
    UnlinkedKeepsOrder(rule, c, rest, l, x);
  }
}
