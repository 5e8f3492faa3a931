/** Every expanded intent is a well-formed layered graph (plugins/planning/src/intent.rs). */
module IntentGraph {
  import opened Wrappers
  import opened Ordering
  import opened Slugs
  import opened Intent

  function NodeIds(nodes: seq<Node>): seq<string> {
    seq(|nodes|, i requires 0 <= i < |nodes| => nodes[i].id)
  }

  function EdgeIds(edges: seq<Edge>): seq<string> {
    seq(|edges|, i requires 0 <= i < |edges| => edges[i].id)
  }

  /** The goal, then constraints and deliverables, then verifications. */
  function Layer(node: Node): nat {
    if node.kind.Goal? then 0 else if node.tag == Some("verification") then 2 else 1
  }

  /** Both ends of the edge are nodes, and it goes to a higher layer. */
  ghost predicate Rises(nodes: seq<Node>, edge: Edge) {
    exists s, t :: s in nodes && t in nodes && s.id == edge.source && t.id == edge.target && Layer(s) < Layer(t)
  }

  ghost predicate WellFormed(nodes: seq<Node>, edges: seq<Edge>) {
    && Distinct(NodeIds(nodes)) && Distinct(EdgeIds(edges))
    && forall e :: e in edges ==> Rises(nodes, e)
  }

  // ----- ids

  lemma ConstraintIds(slug: string, constraints: seq<string>)
    ensures var ids := NodeIds(Constraints(slug, constraints));
      Distinct(ids) && forall id :: id in ids ==> |id| > 3 && id[0] == 'a' && id[3] == 'c'
  {
    hide Decimal;
    var ids := NodeIds(Constraints(slug, constraints));
    forall i, j | 0 <= i < j < |ids| ensures ids[i] != ids[j] {
      SameNumber("ac-constraint-" + slug, i, "ac-constraint-" + slug, j);
    }
  }

  lemma SameNumber(a: string, i: nat, b: string, j: nat)
    ensures Numbered(a, i) == Numbered(b, j) ==> a == b && i == j
  {
    hide Decimal;
    if Numbered(a, i) == Numbered(b, j) {
      NumberedInjective(a, i, b, j);
    }
  }

  lemma WorkIds(slugs: seq<string>, deliverables: seq<string>)
    requires |slugs| == |deliverables|
    ensures var ids := NodeIds(Deliverables(slugs, deliverables));
      ids == DeliverableIds(slugs) && Distinct(ids) && forall id :: id in ids ==> |id| > 3 && id[0] == 'w'
  {
    hide Decimal;
    var ids := NodeIds(Deliverables(slugs, deliverables));
    forall i, j | 0 <= i < j < |ids| ensures ids[i] != ids[j] {
      SameNumber("wp-" + slugs[i], i, "wp-" + slugs[j], j);
    }
  }

  lemma VerificationIds(slug: string, verification: seq<string>)
    ensures var ids := NodeIds(Verifications(slug, verification));
      Distinct(ids) && forall id :: id in ids ==> |id| > 3 && id[0] == 'a' && id[3] == 'v'
  {
    hide Decimal;
    var ids := NodeIds(Verifications(slug, verification));
    forall i, j | 0 <= i < j < |ids| ensures ids[i] != ids[j] {
      SameNumber("ac-verify-" + slug, i, "ac-verify-" + slug, j);
    }
  }

  lemma NodeIdsAppend(a: seq<Node>, b: seq<Node>)
    ensures NodeIds(a + b) == NodeIds(a) + NodeIds(b)
  {
  }

  lemma NodeIdsDistinct(intent: Intent, slug: string, slugs: seq<string>)
    requires |slugs| == |intent.deliverables|
    ensures Distinct(NodeIds(Nodes(intent, slug, slugs)))
  {
    hide Constraints, Deliverables, DeliverableIds, Verifications, Distinct, NodeIds;
    var goal, c := [GoalNode(slug, intent.intent)], Constraints(slug, intent.constraints);
    var d, v := Deliverables(slugs, intent.deliverables), Verifications(slug, intent.verification);
    ConstraintIds(slug, intent.constraints);
    WorkIds(slugs, intent.deliverables);
    VerificationIds(slug, intent.verification);
    GoalId(slug, intent.intent);
    NodeIdsAppend(goal, c);
    NodeIdsAppend(goal + c, d);
    NodeIdsAppend(goal + c + d, v);
    DistinctAppend(NodeIds(goal), NodeIds(c));
    DistinctAppend(NodeIds(goal) + NodeIds(c), NodeIds(d));
    DistinctAppend(NodeIds(goal) + NodeIds(c) + NodeIds(d), NodeIds(v));
  }

  lemma GoalId(slug: string, intent: string)
    ensures var ids := NodeIds([GoalNode(slug, intent)]);
      Distinct(ids) && forall id :: id in ids ==> |id| > 1 && id[0] == 'g'
  {
  }

  lemma EdgeIdsAppend(a: seq<Edge>, b: seq<Edge>)
    ensures EdgeIds(a + b) == EdgeIds(a) + EdgeIds(b)
  {
  }

  lemma ConstraintEdgeIds(slug: string, n: nat)
    ensures var ids := EdgeIds(ConstraintEdges(slug, n));
      Distinct(ids) && forall id :: id in ids ==> |id| > 3 && id[1] == 'r' && id[3] == 'g'
  {
    hide Decimal;
    var ids := EdgeIds(ConstraintEdges(slug, n));
    forall i, j | 0 <= i < j < |ids| ensures ids[i] != ids[j] {
      SameNumber("er-goal-constraint-" + slug, i, "er-goal-constraint-" + slug, j);
    }
  }

  lemma DeliverableEdgeIds(slug: string, targets: seq<string>)
    ensures var ids := EdgeIds(DeliverableEdges(slug, targets));
      Distinct(ids) && forall id :: id in ids ==> |id| > 3 && id[1] == 'd'
  {
    hide Decimal;
    var ids := EdgeIds(DeliverableEdges(slug, targets));
    forall i, j | 0 <= i < j < |ids| ensures ids[i] != ids[j] {
      SameNumber("ed-goal-deliverable-" + slug, i, "ed-goal-deliverable-" + slug, j);
    }
  }

  function VerificationEdgeId(slug: string, i: nat, j: nat): string {
    Numbered(Numbered("er-verify-" + slug, i), j)
  }

  lemma VerificationEdgeIdInjective(slug: string, i: nat, j: nat, p: nat, q: nat)
    ensures VerificationEdgeId(slug, i, j) == VerificationEdgeId(slug, p, q) ==> i == p && j == q
    ensures var id := VerificationEdgeId(slug, i, j); |id| > 3 && id[1] == 'r' && id[3] == 'v'
  {
    hide Decimal;
    SameNumber(Numbered("er-verify-" + slug, i), j, Numbered("er-verify-" + slug, p), q);
    SameNumber("er-verify-" + slug, i, "er-verify-" + slug, p);
  }

  lemma RowIds(slug: string, i: nat, targets: seq<string>)
    ensures var ids := EdgeIds(VerificationRow(slug, i, targets));
      Distinct(ids) && forall id :: id in ids ==> exists j: nat :: id == VerificationEdgeId(slug, i, j)
  {
    hide Numbered;
    var ids := EdgeIds(VerificationRow(slug, i, targets));
    forall j, q | 0 <= j < q < |ids| ensures ids[j] != ids[q] {
      VerificationEdgeIdInjective(slug, i, j, i, q);
    }
    forall id | id in ids ensures exists j: nat :: id == VerificationEdgeId(slug, i, j) {
      var j :| 0 <= j < |ids| && ids[j] == id;
      assert id == VerificationEdgeId(slug, i, j);
    }
  }

  lemma {:induction false} VerificationEdgeIds(slug: string, n: nat, targets: seq<string>)
    ensures var ids := EdgeIds(VerificationEdges(slug, n, targets));
      Distinct(ids) && forall id :: id in ids ==> exists i: nat, j: nat :: i < n && id == VerificationEdgeId(slug, i, j)
  {
    hide VerificationRow, Distinct, VerificationEdgeId, EdgeIds;
    if n == 0 {
      NoEdges();
    } else {
      var before, row := VerificationEdges(slug, n - 1, targets), VerificationRow(slug, n - 1, targets);
      VerificationEdgeIds(slug, n - 1, targets);
      RowIds(slug, n - 1, targets);
      EdgeIdsAppend(before, row);
      forall id | id in EdgeIds(before) ensures id !in EdgeIds(row) {
        var i: nat, j: nat :| i < n - 1 && id == VerificationEdgeId(slug, i, j);
        if id in EdgeIds(row) {
          var q: nat :| id == VerificationEdgeId(slug, n - 1, q);
          VerificationEdgeIdInjective(slug, i, j, n - 1, q);
        }
      }
      DistinctAppend(EdgeIds(before), EdgeIds(row));
    }
  }

  lemma NoEdges()
    ensures EdgeIds([]) == [] && Distinct<string>([])
  {
  }

  lemma EdgeIdsDistinct(intent: Intent, slug: string, slugs: seq<string>)
    ensures Distinct(EdgeIds(Edges(intent, slug, slugs)))
  {
    hide ConstraintEdges, DeliverableEdges, VerificationEdges, DeliverableIds, Distinct, EdgeIds, VerificationEdgeId;
    var ids := DeliverableIds(slugs);
    var c, d := ConstraintEdges(slug, |intent.constraints|), DeliverableEdges(slug, ids);
    var v := VerificationEdges(slug, |intent.verification|, ids);
    ConstraintEdgeIds(slug, |intent.constraints|);
    DeliverableEdgeIds(slug, ids);
    VerificationEdgeIds(slug, |intent.verification|, ids);
    EdgeIdsAppend(c, d);
    EdgeIdsAppend(c + d, v);
    DistinctAppend(EdgeIds(c), EdgeIds(d));
    forall id | id in EdgeIds(v) ensures |id| > 3 && id[1] == 'r' && id[3] == 'v' {
      var i: nat, j: nat :| i < |intent.verification| && id == VerificationEdgeId(slug, i, j);
      VerificationEdgeIdInjective(slug, i, j, i, j);
    }
    DistinctAppend(EdgeIds(c) + EdgeIds(d), EdgeIds(v));
  }

  // ----- ends and layers

  lemma NodeParts(intent: Intent, slug: string, slugs: seq<string>, node: Node)
    requires |slugs| == |intent.deliverables|
    requires node == GoalNode(slug, intent.intent)
      || (exists i :: 0 <= i < |intent.constraints| && node == ConstraintNode(slug, i, intent.constraints[i]))
      || (exists i :: 0 <= i < |slugs| && node == DeliverableNode(slugs[i], i, intent.deliverables[i]))
      || (exists i :: 0 <= i < |intent.verification| && node == VerificationNode(slug, i, intent.verification[i]))
    ensures node in Nodes(intent, slug, slugs)
  {
    hide GoalNode, ConstraintNode, DeliverableNode, VerificationNode;
    var c, d, v := Constraints(slug, intent.constraints), Deliverables(slugs, intent.deliverables), Verifications(slug, intent.verification);
    if i :| 0 <= i < |intent.constraints| && node == ConstraintNode(slug, i, intent.constraints[i]) {
      assert c[i] == node;
    } else if i :| 0 <= i < |slugs| && node == DeliverableNode(slugs[i], i, intent.deliverables[i]) {
      assert d[i] == node;
    } else if i :| 0 <= i < |intent.verification| && node == VerificationNode(slug, i, intent.verification[i]) {
      assert v[i] == node;
    }
  }

  lemma ConstraintEdgeRises(intent: Intent, slug: string, slugs: seq<string>, i: nat)
    requires |slugs| == |intent.deliverables| && i < |intent.constraints|
    ensures Rises(Nodes(intent, slug, slugs), ConstraintEdge(slug, i))
  {
    hide Nodes, Numbered;
    var s, t := GoalNode(slug, intent.intent), ConstraintNode(slug, i, intent.constraints[i]);
    NodeParts(intent, slug, slugs, s);
    NodeParts(intent, slug, slugs, t);
  }

  lemma DeliverableEdgeRises(intent: Intent, slug: string, slugs: seq<string>, i: nat)
    requires |slugs| == |intent.deliverables| && i < |slugs|
    ensures Rises(Nodes(intent, slug, slugs), DeliverableEdge(slug, i, DeliverableIds(slugs)[i]))
  {
    hide Nodes, Numbered;
    var s, t := GoalNode(slug, intent.intent), DeliverableNode(slugs[i], i, intent.deliverables[i]);
    NodeParts(intent, slug, slugs, s);
    NodeParts(intent, slug, slugs, t);
  }

  lemma VerificationEdgeRises(intent: Intent, slug: string, slugs: seq<string>, i: nat, j: nat)
    requires |slugs| == |intent.deliverables| && i < |intent.verification| && j < |slugs|
    ensures Rises(Nodes(intent, slug, slugs), VerificationEdge(slug, i, j, DeliverableIds(slugs)[j]))
  {
    hide Nodes, Numbered;
    var s, t := DeliverableNode(slugs[j], j, intent.deliverables[j]), VerificationNode(slug, i, intent.verification[i]);
    NodeParts(intent, slug, slugs, s);
    NodeParts(intent, slug, slugs, t);
  }

  lemma {:induction false} VerificationEdgeParts(slug: string, n: nat, ids: seq<string>, e: Edge)
    requires e in VerificationEdges(slug, n, ids)
    ensures exists i, j :: 0 <= i < n && 0 <= j < |ids| && e == VerificationEdge(slug, i, j, ids[j])
  {
    hide VerificationEdge;
    if e in VerificationEdges(slug, n - 1, ids) {
      VerificationEdgeParts(slug, n - 1, ids, e);
    } else {
      var row := VerificationRow(slug, n - 1, ids);
      var j :| 0 <= j < |row| && row[j] == e;
      assert e == VerificationEdge(slug, n - 1, j, ids[j]);
    }
  }

  lemma EveryEdgeRises(intent: Intent, slug: string, slugs: seq<string>, e: Edge)
    requires |slugs| == |intent.deliverables| && e in Edges(intent, slug, slugs)
    ensures Rises(Nodes(intent, slug, slugs), e)
  {
    hide Rises, Nodes, VerificationEdges, ConstraintEdge, DeliverableEdge, VerificationEdge;
    var ids := DeliverableIds(slugs);
    var c, d := ConstraintEdges(slug, |intent.constraints|), DeliverableEdges(slug, ids);
    if e in c {
      var i :| 0 <= i < |c| && c[i] == e;
      ConstraintEdgeRises(intent, slug, slugs, i);
    } else if e in d {
      var i :| 0 <= i < |d| && d[i] == e;
      DeliverableEdgeRises(intent, slug, slugs, i);
    } else {
      VerificationEdgeParts(slug, |intent.verification|, ids, e);
      var i, j :| 0 <= i < |intent.verification| && 0 <= j < |ids| && e == VerificationEdge(slug, i, j, ids[j]);
      VerificationEdgeRises(intent, slug, slugs, i, j);
    }
  }

  lemma {:induction false} VerificationEdgeCount(slug: string, n: nat, ids: seq<string>)
    ensures |VerificationEdges(slug, n, ids)| == n * |ids|
  {
    if n > 0 {
      VerificationEdgeCount(slug, n - 1, ids);
    }
  }

  /** Node ids and edge ids are distinct, every edge joins two nodes and rises, and the counts are as promised. */
  lemma ExpandedIntentIsWellFormed(intent: Intent, slug: string, slugs: seq<string>)
    requires |slugs| == |intent.deliverables|
    ensures WellFormed(Nodes(intent, slug, slugs), Edges(intent, slug, slugs))
    ensures var c, d, v := |intent.constraints|, |intent.deliverables|, |intent.verification|;
      |Nodes(intent, slug, slugs)| == 1 + c + d + v && |Edges(intent, slug, slugs)| == c + d + d * v
  {
    hide Distinct, Rises, NodeIds, EdgeIds, VerificationEdges;
    NodeIdsDistinct(intent, slug, slugs);
    EdgeIdsDistinct(intent, slug, slugs);
    forall e | e in Edges(intent, slug, slugs) ensures Rises(Nodes(intent, slug, slugs), e) {
      EveryEdgeRises(intent, slug, slugs, e);
    }
    VerificationEdgeCount(slug, |intent.verification|, DeliverableIds(slugs));
  }

  // ----- no cycles

  /** Edges that follow one another. */
  ghost predicate Walk(edges: seq<Edge>, walk: seq<Edge>) {
    && (forall k :: 0 <= k < |walk| ==> walk[k] in edges)
    && forall k :: 0 <= k < |walk| - 1 ==> walk[k].target == walk[k + 1].source
  }

  lemma SameIdSameNode(nodes: seq<Node>, s: Node, t: Node)
    requires Distinct(NodeIds(nodes)) && s in nodes && t in nodes && s.id == t.id
    ensures s == t
  {
    var i :| 0 <= i < |nodes| && nodes[i] == s;
    var j :| 0 <= j < |nodes| && nodes[j] == t;
    assert NodeIds(nodes)[i] == NodeIds(nodes)[j];
  }

  /** Along a walk the layer grows with every edge. */
  lemma {:induction false} WalkClimbs(nodes: seq<Node>, edges: seq<Edge>, walk: seq<Edge>)
    requires WellFormed(nodes, edges) && Walk(edges, walk) && walk != []
    ensures exists t :: t in nodes && t.id == walk[|walk| - 1].target && Layer(t) >= |walk|
  {
    hide Layer, Distinct;
    var last := walk[|walk| - 1];
    assert Rises(nodes, last);
    var s, t :| s in nodes && t in nodes && s.id == last.source && t.id == last.target && Layer(s) < Layer(t);
    if |walk| > 1 {
      var before := walk[..|walk| - 1];
      WalkClimbs(nodes, edges, before);
      var m :| m in nodes && m.id == before[|before| - 1].target && Layer(m) >= |before|;
      assert before[|before| - 1] == walk[|walk| - 2];
      SameIdSameNode(nodes, m, s);
    }
  }

  /** The graph has no walk of three edges, and so no cycle. */
  lemma NoLongWalks(intent: Intent, slug: string, slugs: seq<string>, walk: seq<Edge>)
    requires |slugs| == |intent.deliverables| && Walk(Edges(intent, slug, slugs), walk)
    ensures |walk| <= 2
    ensures walk != [] ==> walk[0].source != walk[|walk| - 1].target
  {
    hide Nodes, Edges, Distinct, NodeIds, EdgeIds;
    if walk != [] {
      ExpandedIntentIsWellFormed(intent, slug, slugs);
      WalkClimbs(Nodes(intent, slug, slugs), Edges(intent, slug, slugs), walk);
      NoCycle(intent, slug, slugs, walk);
    }
  }

  lemma NoCycle(intent: Intent, slug: string, slugs: seq<string>, walk: seq<Edge>)
    requires |slugs| == |intent.deliverables| && Walk(Edges(intent, slug, slugs), walk) && walk != []
    ensures walk[0].source != walk[|walk| - 1].target
  {
    hide Nodes, Edges, Distinct, NodeIds, EdgeIds, Layer, Rises;
    if walk[0].source == walk[|walk| - 1].target {
      var round := walk + walk + walk;
      assert Walk(Edges(intent, slug, slugs), round);
      ExpandedIntentIsWellFormed(intent, slug, slugs);
      WalkClimbs(Nodes(intent, slug, slugs), Edges(intent, slug, slugs), round);
      LayersEnd();
    }
  }

  lemma LayersEnd()
    ensures forall node :: Layer(node) <= 2
  {
  }

  // ----- what the graph holds

  ghost predicate IsConstraint(slug: string, constraints: seq<string>, i: int, n: Node) {
    && 0 <= i < |constraints|
    && n == Node("ac-constraint-" + slug + "-" + Decimal(i), Acceptance, constraints[i], "active", Some("constraint"))
  }

  ghost predicate IsDeliverable(slugs: seq<string>, deliverables: seq<string>, i: int, n: Node) {
    && 0 <= i < |deliverables| && i < |slugs|
    && n == Node("wp-" + slugs[i] + "-" + Decimal(i), Work, deliverables[i], "proposed", Some("deliverable"))
  }

  ghost predicate IsVerification(slug: string, verification: seq<string>, i: int, n: Node) {
    && 0 <= i < |verification|
    && n == Node("ac-verify-" + slug + "-" + Decimal(i), Acceptance, verification[i], "active", Some("verification"))
  }

  lemma ConstraintsExactly(slug: string, constraints: seq<string>, n: Node)
    ensures n in Constraints(slug, constraints) <==> exists i :: IsConstraint(slug, constraints, i, n)
  {
    hide Decimal;
    var cs := Constraints(slug, constraints);
    if n in cs {
      var i :| 0 <= i < |cs| && cs[i] == n;
      assert IsConstraint(slug, constraints, i, n);
    }
    if i :| IsConstraint(slug, constraints, i, n) {
      assert cs[i] == n;
    }
  }

  lemma DeliverablesExactly(slugs: seq<string>, deliverables: seq<string>, n: Node)
    requires |slugs| == |deliverables|
    ensures n in Deliverables(slugs, deliverables) <==> exists i :: IsDeliverable(slugs, deliverables, i, n)
  {
    hide Decimal;
    var ds := Deliverables(slugs, deliverables);
    if n in ds {
      var i :| 0 <= i < |ds| && ds[i] == n;
      assert IsDeliverable(slugs, deliverables, i, n);
    }
    if i :| IsDeliverable(slugs, deliverables, i, n) {
      assert ds[i] == n;
    }
  }

  lemma VerificationsExactly(slug: string, verification: seq<string>, n: Node)
    ensures n in Verifications(slug, verification) <==> exists i :: IsVerification(slug, verification, i, n)
  {
    hide Decimal;
    var vs := Verifications(slug, verification);
    if n in vs {
      var i :| 0 <= i < |vs| && vs[i] == n;
      assert IsVerification(slug, verification, i, n);
    }
    if i :| IsVerification(slug, verification, i, n) {
      assert vs[i] == n;
    }
  }

  /** One active goal, an acceptance node for each constraint and each verification, and proposed work for each deliverable. */
  lemma NodesExactly(intent: Intent, slug: string, slugs: seq<string>, n: Node)
    requires |slugs| == |intent.deliverables|
    ensures n in Nodes(intent, slug, slugs) <==>
      || n == Node("g-" + slug, Goal, intent.intent, "active", None)
      || (exists i :: IsConstraint(slug, intent.constraints, i, n))
      || (exists i :: IsDeliverable(slugs, intent.deliverables, i, n))
      || (exists i :: IsVerification(slug, intent.verification, i, n))
  {
    hide Decimal, Constraints, Deliverables, Verifications, IsConstraint, IsDeliverable, IsVerification;
    ConstraintsExactly(slug, intent.constraints, n);
    DeliverablesExactly(slugs, intent.deliverables, n);
    VerificationsExactly(slug, intent.verification, n);
  }

  /** The goal requires constraint i. */
  ghost predicate RequiresConstraint(slug: string, n: nat, i: int, e: Edge) {
    && 0 <= i < n
    && e == Edge("er-goal-constraint-" + slug + "-" + Decimal(i), Requires, "g-" + slug, "ac-constraint-" + slug + "-" + Decimal(i))
  }

  /** The goal decomposes into deliverable i. */
  ghost predicate Decomposes(slug: string, slugs: seq<string>, i: int, e: Edge) {
    && 0 <= i < |slugs|
    && e == Edge("ed-goal-deliverable-" + slug + "-" + Decimal(i), DecomposesTo, "g-" + slug, "wp-" + slugs[i] + "-" + Decimal(i))
  }

  /** Deliverable j requires verification i. */
  ghost predicate RequiresVerification(slug: string, n: nat, slugs: seq<string>, i: int, j: int, e: Edge) {
    && 0 <= i < n && 0 <= j < |slugs|
    && e == Edge("er-verify-" + slug + "-" + Decimal(i) + "-" + Decimal(j), Requires,
                 "wp-" + slugs[j] + "-" + Decimal(j), "ac-verify-" + slug + "-" + Decimal(i))
  }

  lemma ConstraintEdgesExactly(slug: string, n: nat, e: Edge)
    ensures e in ConstraintEdges(slug, n) <==> exists i :: RequiresConstraint(slug, n, i, e)
  {
    hide Decimal;
    var cs := ConstraintEdges(slug, n);
    if e in cs {
      var i :| 0 <= i < |cs| && cs[i] == e;
      assert RequiresConstraint(slug, n, i, e);
    }
    if i :| RequiresConstraint(slug, n, i, e) {
      assert cs[i] == e;
    }
  }

  lemma DeliverableEdgesExactly(slug: string, slugs: seq<string>, e: Edge)
    ensures e in DeliverableEdges(slug, DeliverableIds(slugs)) <==> exists i :: Decomposes(slug, slugs, i, e)
  {
    hide Decimal;
    var ds := DeliverableEdges(slug, DeliverableIds(slugs));
    if e in ds {
      var i :| 0 <= i < |ds| && ds[i] == e;
      assert Decomposes(slug, slugs, i, e);
    }
    if i :| Decomposes(slug, slugs, i, e) {
      assert ds[i] == e;
    }
  }

  lemma {:induction false} VerificationEdgesExactly(slug: string, n: nat, slugs: seq<string>, e: Edge)
    ensures e in VerificationEdges(slug, n, DeliverableIds(slugs)) <==> exists i, j :: RequiresVerification(slug, n, slugs, i, j, e)
  {
    hide Decimal;
    if n > 0 {
      VerificationEdgesExactly(slug, n - 1, slugs, e);
      var row := VerificationRow(slug, n - 1, DeliverableIds(slugs));
      if e in row {
        var j :| 0 <= j < |row| && row[j] == e;
        assert RequiresVerification(slug, n, slugs, n - 1, j, e);
      } else if e in VerificationEdges(slug, n, DeliverableIds(slugs)) {
        var i, j :| RequiresVerification(slug, n - 1, slugs, i, j, e);
        assert RequiresVerification(slug, n, slugs, i, j, e);
      }
      if i, j :| RequiresVerification(slug, n, slugs, i, j, e) {
        assert i == n - 1 ==> row[j] == e;
        assert i < n - 1 ==> RequiresVerification(slug, n - 1, slugs, i, j, e);
      }
    }
  }

  /** The goal requires each constraint and decomposes into each deliverable, and each deliverable requires each verification. */
  lemma EdgesExactly(intent: Intent, slug: string, slugs: seq<string>, e: Edge)
    requires |slugs| == |intent.deliverables|
    ensures e in Edges(intent, slug, slugs) <==>
      || (exists i :: RequiresConstraint(slug, |intent.constraints|, i, e))
      || (exists i :: Decomposes(slug, slugs, i, e))
      || (exists i, j :: RequiresVerification(slug, |intent.verification|, slugs, i, j, e))
  {
    hide Decimal, ConstraintEdges, DeliverableEdges, VerificationEdges, RequiresConstraint, Decomposes, RequiresVerification;
    ConstraintEdgesExactly(slug, |intent.constraints|, e);
    DeliverableEdgesExactly(slug, slugs, e);
    VerificationEdgesExactly(slug, |intent.verification|, slugs, e);
  }
}
