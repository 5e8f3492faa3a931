/** The expansion of a planning intent into a manifest graph (plugins/planning/src/intent.rs). */
module Intent {
  import opened Wrappers
  import opened Text
  import opened Slugs

  datatype Intent = Intent(scope: string, intent: string, constraints: seq<string>, deliverables: seq<string>, verification: seq<string>)

  datatype NodeKind = Goal | Acceptance | Work
  datatype EdgeKind = Requires | DecomposesTo

  datatype Node = Node(id: string, kind: NodeKind, title: string, status: string, tag: Option<string>)
  datatype Edge = Edge(id: string, kind: EdgeKind, source: string, target: string)

  datatype Manifest = Manifest(scope: string, nodes: seq<Node>, edges: seq<Edge>)

  datatype IntentError = EmptyScope | SliceInsideCharacter

  function Numbered(prefix: string, i: nat): string {
    prefix + "-" + Decimal(i)
  }

  function GoalNode(slug: string, intent: string): Node {
    Node("g-" + slug, Goal, intent, "active", None)
  }

  function ConstraintNode(slug: string, i: nat, constraint: string): Node {
    Node(Numbered("ac-constraint-" + slug, i), Acceptance, constraint, "active", Some("constraint"))
  }

  function ConstraintEdge(slug: string, i: nat): Edge {
    Edge(Numbered("er-goal-constraint-" + slug, i), Requires, "g-" + slug, Numbered("ac-constraint-" + slug, i))
  }

  function DeliverableNode(slug: string, i: nat, deliverable: string): Node {
    Node(Numbered("wp-" + slug, i), Work, deliverable, "proposed", Some("deliverable"))
  }

  function DeliverableEdge(slug: string, i: nat, deliverableId: string): Edge {
    Edge(Numbered("ed-goal-deliverable-" + slug, i), DecomposesTo, "g-" + slug, deliverableId)
  }

  function VerificationNode(slug: string, i: nat, verification: string): Node {
    Node(Numbered("ac-verify-" + slug, i), Acceptance, verification, "active", Some("verification"))
  }

  function VerificationEdge(slug: string, i: nat, j: nat, deliverableId: string): Edge {
    Edge(Numbered(Numbered("er-verify-" + slug, i), j), Requires, deliverableId, Numbered("ac-verify-" + slug, i))
  }

  // ----- the graph, part by part

  function Constraints(slug: string, constraints: seq<string>): seq<Node> {
    seq(|constraints|, i requires 0 <= i < |constraints| => ConstraintNode(slug, i, constraints[i]))
  }

  function ConstraintEdges(slug: string, n: nat): seq<Edge> {
    seq(n, i requires 0 <= i < n => ConstraintEdge(slug, i))
  }

  /** One slug for each deliverable. */
  function Deliverables(slugs: seq<string>, deliverables: seq<string>): seq<Node>
    requires |slugs| == |deliverables|
  {
    seq(|deliverables|, i requires 0 <= i < |deliverables| => DeliverableNode(slugs[i], i, deliverables[i]))
  }

  function DeliverableIds(slugs: seq<string>): seq<string> {
    seq(|slugs|, i requires 0 <= i < |slugs| => Numbered("wp-" + slugs[i], i))
  }

  function DeliverableEdges(slug: string, ids: seq<string>): seq<Edge> {
    seq(|ids|, i requires 0 <= i < |ids| => DeliverableEdge(slug, i, ids[i]))
  }

  function Verifications(slug: string, verification: seq<string>): seq<Node> {
    seq(|verification|, i requires 0 <= i < |verification| => VerificationNode(slug, i, verification[i]))
  }

  function VerificationRow(slug: string, i: nat, ids: seq<string>): seq<Edge> {
    seq(|ids|, j requires 0 <= j < |ids| => VerificationEdge(slug, i, j, ids[j]))
  }

  function VerificationEdges(slug: string, n: nat, ids: seq<string>): seq<Edge> {
    if n == 0 then [] else VerificationEdges(slug, n - 1, ids) + VerificationRow(slug, n - 1, ids)
  }

  function Nodes(intent: Intent, slug: string, slugs: seq<string>): seq<Node>
    requires |slugs| == |intent.deliverables|
  {
    [GoalNode(slug, intent.intent)] + Constraints(slug, intent.constraints)
    + Deliverables(slugs, intent.deliverables) + Verifications(slug, intent.verification)
  }

  function Edges(intent: Intent, slug: string, slugs: seq<string>): seq<Edge> {
    ConstraintEdges(slug, |intent.constraints|) + DeliverableEdges(slug, DeliverableIds(slugs))
    + VerificationEdges(slug, |intent.verification|, DeliverableIds(slugs))
  }

  /** The slugs of the first deliverables. */
  ghost predicate SlugsOf(tables: Tables, texts: seq<string>, slugs: seq<string>) {
    |slugs| <= |texts| && forall i :: 0 <= i < |slugs| ==> Slugify(tables, texts[i], 30) == Some(slugs[i])
  }

  // ----- one more item

  lemma NothingYet(slug: string)
    ensures Constraints(slug, []) == [] && ConstraintEdges(slug, 0) == []
    ensures Deliverables([], []) == [] && DeliverableIds([]) == [] && DeliverableEdges(slug, []) == []
    ensures Verifications(slug, []) == [] && VerificationEdges(slug, 0, []) == []
  {
  }

  lemma OneMoreConstraint(slug: string, constraints: seq<string>, i: nat)
    requires i < |constraints|
    ensures Constraints(slug, constraints[..i + 1]) == Constraints(slug, constraints[..i]) + [ConstraintNode(slug, i, constraints[i])]
    ensures ConstraintEdges(slug, i + 1) == ConstraintEdges(slug, i) + [ConstraintEdge(slug, i)]
  {
  }

  lemma OneMoreDeliverable(slug: string, slugs: seq<string>, next: string, deliverables: seq<string>)
    requires |slugs| < |deliverables|
    ensures var i := |slugs|;
      var id := Numbered("wp-" + next, i);
      && Deliverables(slugs + [next], deliverables[..i + 1])
           == Deliverables(slugs, deliverables[..i]) + [DeliverableNode(next, i, deliverables[i])]
      && DeliverableIds(slugs + [next]) == DeliverableIds(slugs) + [id]
      && DeliverableEdges(slug, DeliverableIds(slugs) + [id])
           == DeliverableEdges(slug, DeliverableIds(slugs)) + [DeliverableEdge(slug, i, id)]
  {
  }

  lemma OneMoreVerification(slug: string, verification: seq<string>, i: nat)
    requires i < |verification|
    ensures Verifications(slug, verification[..i + 1])
      == Verifications(slug, verification[..i]) + [VerificationNode(slug, i, verification[i])]
  {
  }

  lemma OneMoreInRow(slug: string, i: nat, ids: seq<string>, j: nat)
    requires j < |ids|
    ensures VerificationRow(slug, i, ids[..j + 1]) == VerificationRow(slug, i, ids[..j]) + [VerificationEdge(slug, i, j, ids[j])]
  {
  }

  lemma EmptyRow(slug: string, i: nat)
    ensures VerificationRow(slug, i, []) == []
  {
  }

  method ExpandIntent(tables: Tables, blank: char -> bool, intent: Intent) returns (r: Result<Manifest, IntentError>)
    ensures r == Err(EmptyScope) <==> TrimMatches(blank, intent.scope) == ""
    ensures r == Err(SliceInsideCharacter) <==>
      && TrimMatches(blank, intent.scope) != ""
      && (Slugify(tables, intent.intent, 40).None?
          || exists i :: 0 <= i < |intent.deliverables| && Slugify(tables, intent.deliverables[i], 30).None?)
    ensures r.Ok? ==> exists slug, slugs ::
      && Slugify(tables, intent.intent, 40) == Some(slug)
      && |slugs| == |intent.deliverables| && SlugsOf(tables, intent.deliverables, slugs)
      && r.value == Manifest(TrimMatches(blank, intent.scope), Nodes(intent, slug, slugs), Edges(intent, slug, slugs))
  {
    hide TrimMatches, Slugify, Numbered, Constraints, ConstraintEdges, Deliverables, DeliverableIds, DeliverableEdges, Verifications, VerificationRow;
    var scope := TrimMatches(blank, intent.scope);
    if scope == "" {
      return Err(EmptyScope);
    }
    var titleSlug := Slugify(tables, intent.intent, 40);
    if titleSlug.None? {
      return Err(SliceInsideCharacter);
    }
    var slug := titleSlug.value;
    var goalId := "g-" + slug;
    var nodes := [GoalNode(slug, intent.intent)];
    var edges: seq<Edge> := [];
    NothingYet(slug);

    for i := 0 to |intent.constraints|
      invariant nodes == [GoalNode(slug, intent.intent)] + Constraints(slug, intent.constraints[..i])
      invariant edges == ConstraintEdges(slug, i)
    {
      OneMoreConstraint(slug, intent.constraints, i);
      var constraintId := Numbered("ac-constraint-" + slug, i);
      nodes := nodes + [Node(constraintId, Acceptance, intent.constraints[i], "active", Some("constraint"))];
      edges := edges + [Edge(Numbered("er-goal-constraint-" + slug, i), Requires, goalId, constraintId)];
    }
    assert intent.constraints[..|intent.constraints|] == intent.constraints;
    ghost var before, edgesBefore := nodes, edges;

    var deliverableIds: seq<string> := [];
    ghost var slugs: seq<string> := [];
    for i := 0 to |intent.deliverables|
      invariant |slugs| == i && SlugsOf(tables, intent.deliverables, slugs) && deliverableIds == DeliverableIds(slugs)
      invariant nodes == before + Deliverables(slugs, intent.deliverables[..i])
      invariant edges == edgesBefore + DeliverableEdges(slug, deliverableIds)
    {
      var deliverableSlug := Slugify(tables, intent.deliverables[i], 30);
      if deliverableSlug.None? {
        return Err(SliceInsideCharacter);
      }
      OneMoreDeliverable(slug, slugs, deliverableSlug.value, intent.deliverables);
      var deliverableId := Numbered("wp-" + deliverableSlug.value, i);
      nodes := nodes + [Node(deliverableId, Work, intent.deliverables[i], "proposed", Some("deliverable"))];
      edges := edges + [Edge(Numbered("ed-goal-deliverable-" + slug, i), DecomposesTo, goalId, deliverableId)];
      deliverableIds := deliverableIds + [deliverableId];
      slugs := slugs + [deliverableSlug.value];
    }
    assert intent.deliverables[..|intent.deliverables|] == intent.deliverables;
    before, edgesBefore := nodes, edges;

    for i := 0 to |intent.verification|
      invariant nodes == before + Verifications(slug, intent.verification[..i])
      invariant edges == edgesBefore + VerificationEdges(slug, i, deliverableIds)
    {
      OneMoreVerification(slug, intent.verification, i);
      EmptyRow(slug, i);
      var verificationId := Numbered("ac-verify-" + slug, i);
      nodes := nodes + [Node(verificationId, Acceptance, intent.verification[i], "active", Some("verification"))];
      ghost var rowBefore := edges;
      for j := 0 to |deliverableIds|
        invariant edges == rowBefore + VerificationRow(slug, i, deliverableIds[..j])
      {
        OneMoreInRow(slug, i, deliverableIds, j);
        edges := edges + [Edge(Numbered(Numbered("er-verify-" + slug, i), j), Requires, deliverableIds[j], verificationId)];
      }
      assert deliverableIds[..|deliverableIds|] == deliverableIds;
    }
    assert intent.verification[..|intent.verification|] == intent.verification;
    r := Ok(Manifest(scope, nodes, edges));
    assert nodes == Nodes(intent, slug, slugs) && edges == Edges(intent, slug, slugs);
  }
}
