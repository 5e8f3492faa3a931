/** What a consolidator is given, and the order in which it visits it (plugins/memory/src/consolidator.rs). */
module Candidates {
  import opened Wrappers
  import opened Scopes
  import Similarity

  type MemoryId = nat

  datatype MemoryState = Active | Dormant | Deleted

  datatype Memory = Memory(id: MemoryId, content: string, scope: MemoryScope, importance: real, state: MemoryState)

  datatype Candidate = Candidate(memory: Memory, embedding: Option<Similarity.Embedding>)

  /**
   * The consolidator's settings: when the similarity of two vectors reaches the configured threshold, when it
   * reaches the fixed 0.95 of content merging, and whether scopes are crossed. The strategies work for every
   * such test; CosineRule is the one the source builds.
   */
  datatype Rule = Rule(
    reaches: (Similarity.Embedding, Similarity.Embedding) -> bool,
    nearIdentical: (Similarity.Embedding, Similarity.Embedding) -> bool,
    crossScope: bool)

  function CosineRule(threshold: Option<real>, crossScope: bool): Rule {
    Rule((a, b) => |a| == |b| && Similarity.Reaches(a, b, NormalizeThreshold(threshold)),
         (a, b) => |a| == |b| && Similarity.Reaches(a, b, 0.95),
         crossScope)
  }

  /** The cosine does not depend on which of two vectors comes first. */
  lemma CosineRuleIsSymmetric(threshold: Option<real>, crossScope: bool, a: Similarity.Embedding, b: Similarity.Embedding)
    ensures var rule := CosineRule(threshold, crossScope); rule.reaches(a, b) == rule.reaches(b, a)
  {
    if |a| == |b| {
      Similarity.ReachesIsSymmetric(a, b, NormalizeThreshold(threshold));
    }
  }

  datatype Action =
    | Merged(sourceIds: seq<MemoryId>, result: Memory)
    | Contradiction(memoryA: MemoryId, memoryB: MemoryId, description: string)

  const DEFAULT_MERGE_THRESHOLD: real := 0.85

  /** A threshold that is not finite is written None. */
  function NormalizeThreshold(threshold: Option<real>): (t: real)
    ensures 0.0 <= t <= 1.0
  {
    match threshold
    case Some(t) => Similarity.Clamp(t, 0.0, 1.0)
    case None => DEFAULT_MERGE_THRESHOLD
  }

  /** A cap of zero is no cap. */
  function PairLimit(limit: Option<nat>): (l: Option<nat>)
    ensures l.Some? ==> l.value > 0
  {
    if limit == Some(0) then None else limit
  }

  // ----- embeddings that can take part

  /** The stored embedding of an active memory, when it has one that is not empty. */
  function Prepare(c: Candidate): Candidate {
    if c.memory.state == Active && c.embedding.Some? && c.embedding.value != [] then c
    else c.(embedding := None)
  }

  /** As Prepare, but a missing embedding of an active memory is asked of a provider, which may fail or answer []. */
  function PrepareWith(embed: string -> Option<Similarity.Embedding>, c: Candidate): Candidate {
    if c.memory.state != Active then c.(embedding := None)
    else if c.embedding.Some? && c.embedding.value != [] then c
    else
      var answer := embed(c.memory.content);
      c.(embedding := if answer.Some? && answer.value != [] then answer else None)
  }

  function PrepareAll(cs: seq<Candidate>): (ps: seq<Candidate>)
    ensures |ps| == |cs| && forall i :: 0 <= i < |cs| ==> ps[i] == Prepare(cs[i])
  {
    if cs == [] then [] else [Prepare(cs[0])] + PrepareAll(cs[1..])
  }

  function PrepareAllWith(embed: string -> Option<Similarity.Embedding>, cs: seq<Candidate>): (ps: seq<Candidate>)
    ensures |ps| == |cs| && forall i :: 0 <= i < |cs| ==> ps[i] == PrepareWith(embed, cs[i])
  {
    if cs == [] then [] else [PrepareWith(embed, cs[0])] + PrepareAllWith(embed, cs[1..])
  }

  /** Can take part, after preparation. */
  predicate Ready(c: Candidate) {
    c.memory.state == Active && c.embedding.Some?
  }

  // ----- the visiting order

  /** Position i is visited before position j: higher importance first, then the lower index. */
  predicate Before(cs: seq<Candidate>, i: nat, j: nat)
    requires i < |cs| && j < |cs|
  {
    cs[i].memory.importance > cs[j].memory.importance
    || (cs[i].memory.importance == cs[j].memory.importance && i < j)
  }

  /** The ready positions, each once, sorted by Before. */
  ghost predicate IsPriorityOrder(cs: seq<Candidate>, order: seq<nat>) {
    && (forall k :: 0 <= k < |order| ==> order[k] < |cs| && Ready(cs[order[k]]))
    && (forall i :: 0 <= i < |cs| && Ready(cs[i]) ==> i in order)
    && (forall a, b :: 0 <= a < b < |order| ==> Before(cs, order[a], order[b]))
  }

  /** Put position i where the sorted positions need it. */
  function InsertIndex(cs: seq<Candidate>, i: nat, order: seq<nat>): (r: seq<nat>)
    requires i < |cs| && forall k :: 0 <= k < |order| ==> order[k] < |cs|
    ensures |r| == |order| + 1
    ensures forall x :: x in r <==> x == i || x in order
  {
    if order == [] || Before(cs, i, order[0]) then [i] + order
    else [order[0]] + InsertIndex(cs, i, order[1..])
  }

  lemma {:induction false} InsertIndexSorted(cs: seq<Candidate>, i: nat, order: seq<nat>)
    requires i < |cs| && forall k :: 0 <= k < |order| ==> order[k] < |cs|
    requires i !in order
    requires forall a, b :: 0 <= a < b < |order| ==> Before(cs, order[a], order[b])
    ensures forall k :: 0 <= k < |InsertIndex(cs, i, order)| ==> InsertIndex(cs, i, order)[k] < |cs|
    ensures forall a, b :: 0 <= a < b < |InsertIndex(cs, i, order)| ==>
                             Before(cs, InsertIndex(cs, i, order)[a], InsertIndex(cs, i, order)[b])
  {
    var r := InsertIndex(cs, i, order);
    forall k | 0 <= k < |r| ensures r[k] < |cs| {
      assert r[k] in r;
    }
    if order != [] && !Before(cs, i, order[0]) {
      var tail := InsertIndex(cs, i, order[1..]);
      assert i !in order[1..];
      InsertIndexSorted(cs, i, order[1..]);
      forall a, b | 0 <= a < b < |r| ensures Before(cs, r[a], r[b]) {
        assert r[b] == tail[b - 1] && r[b] in tail;
        assert r[b] == i || r[b] in order[1..];
        if a > 0 {
          assert r[a] == tail[a - 1];
        }
      }
    }
  }

  /** Collect the ready positions, then sort them. */
  method PrioritizedCandidates(cs: seq<Candidate>) returns (order: seq<nat>)
    ensures IsPriorityOrder(cs, order)
  {
    var indexes: seq<nat> := [];
    for i := 0 to |cs|
      invariant forall k :: 0 <= k < |indexes| ==> indexes[k] < i && Ready(cs[indexes[k]])
      invariant forall a, b :: 0 <= a < b < |indexes| ==> indexes[a] < indexes[b]
      invariant forall j :: 0 <= j < i && Ready(cs[j]) ==> j in indexes
    {
      if Ready(cs[i]) {
        indexes := indexes + [i];
      }
    }
    order := SortIndexes(cs, indexes);
    forall k | 0 <= k < |order| ensures order[k] < |cs| && Ready(cs[order[k]]) {
      assert order[k] in order;
    }
  }

  /** The library sort, as an insertion sort. */
  method SortIndexes(cs: seq<Candidate>, indexes: seq<nat>) returns (order: seq<nat>)
    requires forall k :: 0 <= k < |indexes| ==> indexes[k] < |cs|
    requires forall a, b :: 0 <= a < b < |indexes| ==> indexes[a] < indexes[b]
    ensures forall x :: x in order <==> x in indexes
    ensures forall k :: 0 <= k < |order| ==> order[k] < |cs|
    ensures forall a, b :: 0 <= a < b < |order| ==> Before(cs, order[a], order[b])
  {
    order := [];
    for n := 0 to |indexes|
      invariant forall x :: x in order <==> x in indexes[..n]
      invariant forall k :: 0 <= k < |order| ==> order[k] < |cs|
      invariant forall a, b :: 0 <= a < b < |order| ==> Before(cs, order[a], order[b])
    {
      assert indexes[n] !in order;
      InsertIndexSorted(cs, indexes[n], order);
      assert indexes[..n + 1] == indexes[..n] + [indexes[n]];
      order := InsertIndex(cs, indexes[n], order);
    }
    assert indexes[..|indexes|] == indexes;
  }

  lemma {:induction false} PriorityOrderUnique(cs: seq<Candidate>, a: seq<nat>, b: seq<nat>)
    requires IsPriorityOrder(cs, a) && IsPriorityOrder(cs, b)
    ensures a == b
  {
    SortedSameMembers(cs, a, b);
  }

  lemma {:induction false} SortedSameMembers(cs: seq<Candidate>, a: seq<nat>, b: seq<nat>)
    requires forall k :: 0 <= k < |a| ==> a[k] < |cs|
    requires forall k :: 0 <= k < |b| ==> b[k] < |cs|
    requires forall i, j :: 0 <= i < j < |a| ==> Before(cs, a[i], a[j])
    requires forall i, j :: 0 <= i < j < |b| ==> Before(cs, b[i], b[j])
    requires forall x :: x in a <==> x in b
    ensures a == b
  {
    assert b != [] ==> b[0] in a;
    if a != [] {
      assert a[0] in b;
      assert a[0] == b[0];
      forall x ensures x in a[1..] <==> x in b[1..] {
        assert x in a[1..] ==> x in a && x != a[0];
        assert x in b[1..] ==> x in b && x != b[0];
      }
      SortedSameMembers(cs, a[1..], b[1..]);
    }
  }

  // ----- the same order on values

  function Insert(c: Candidate, xs: seq<Candidate>): (r: seq<Candidate>)
    ensures |r| == |xs| + 1
  {
    if xs == [] || xs[0].memory.importance <= c.memory.importance then [c] + xs
    else [xs[0]] + Insert(c, xs[1..])
  }

  /** The ready candidates by importance, highest first, candidates of equal importance in their given order. */
  function PriorityOrder(cs: seq<Candidate>): seq<Candidate> {
    if cs == [] then []
    else if Ready(cs[0]) then Insert(cs[0], PriorityOrder(cs[1..]))
    else PriorityOrder(cs[1..])
  }

  function Select(cs: seq<Candidate>, order: seq<nat>): (xs: seq<Candidate>)
    requires forall k :: 0 <= k < |order| ==> order[k] < |cs|
    ensures |xs| == |order| && forall k :: 0 <= k < |order| ==> xs[k] == cs[order[k]]
  {
    if order == [] then [] else [cs[order[0]]] + Select(cs, order[1..])
  }

  /** Selecting the positions of a priority order gives the stable sort of the ready candidates. */
  lemma SelectPriorityOrder(cs: seq<Candidate>, order: seq<nat>)
    requires IsPriorityOrder(cs, order)
    ensures Select(cs, order) == PriorityOrder(cs)
  {
    var least := LeastOrder(cs, 0);
    PriorityOrderUnique(cs, order, least);
    assert cs[0..] == cs;
  }

  /** A priority order of the positions from i on, selecting the stable sort of that suffix. */
  lemma {:induction false} LeastOrder(cs: seq<Candidate>, i: nat) returns (order: seq<nat>)
    requires i <= |cs|
    ensures forall k :: 0 <= k < |order| ==> i <= order[k] < |cs| && Ready(cs[order[k]])
    ensures forall j :: i <= j < |cs| && Ready(cs[j]) ==> j in order
    ensures forall a, b :: 0 <= a < b < |order| ==> Before(cs, order[a], order[b])
    ensures Select(cs, order) == PriorityOrder(cs[i..])
    decreases |cs| - i
  {
    if i == |cs| {
      order := [];
    } else {
      var rest := LeastOrder(cs, i + 1);
      assert cs[i..][1..] == cs[i + 1..];
      if Ready(cs[i]) {
        order := InsertIndex(cs, i, rest);
        InsertIndexSorted(cs, i, rest);
        SelectInsert(cs, i, rest);
        forall k | 0 <= k < |order| ensures i <= order[k] && Ready(cs[order[k]]) {
          assert order[k] in order;
        }
      } else {
        order := rest;
      }
    }
  }

  lemma {:induction false} SelectInsert(cs: seq<Candidate>, i: nat, rest: seq<nat>)
    requires i < |cs| && forall k :: 0 <= k < |rest| ==> i < rest[k] < |cs|
    requires forall k :: 0 <= k < |InsertIndex(cs, i, rest)| ==> InsertIndex(cs, i, rest)[k] < |cs|
    ensures Select(cs, InsertIndex(cs, i, rest)) == Insert(cs[i], Select(cs, rest))
  {
    var r, xs := InsertIndex(cs, i, rest), Select(cs, rest);
    if rest == [] || Before(cs, i, rest[0]) {
      assert r[1..] == rest;
    } else {
      assert r[1..] == InsertIndex(cs, i, rest[1..]);
      SelectInsert(cs, i, rest[1..]);
      assert xs[1..] == Select(cs, rest[1..]);
    }
  }
}
