/**
 * When supersession links stay free of cycles: the store itself only checks that the successor exists
 * (plugins/memory/src/local_store.rs, supersede_record).
 */
module Supersession {
  import opened Wrappers
  import opened Artifacts
  import opened FileNames
  import opened LocalStore

  /** The record that superseded this one, when there is one. */
  function SuccessorOf(files: Files, id: string): Option<string> {
    var name := ArtifactFileName(id);
    if name in files then files[name].localLifecycle.supersededByRecordId else None
  }

  /** Where n links lead from an id. */
  function Follow(files: Files, id: string, n: nat): Option<string>
    decreases n
  {
    if n == 0 then Some(id)
    else
      var next := SuccessorOf(files, id);
      if next.None? then None else Follow(files, next.value, n - 1)
  }

  /** Following the links from one id comes by another. */
  ghost predicate Reaches(files: Files, from: string, goal: string) {
    exists n: nat :: Follow(files, from, n) == Some(goal)
  }

  ghost predicate Cycle(files: Files, id: string, n: nat) {
    n > 0 && Follow(files, id, n) == Some(id)
  }

  ghost predicate Acyclic(files: Files) {
    forall id, n: nat :: !Cycle(files, id, n)
  }

  /** A supersede call that writes. */
  ghost predicate Links(clock: Clock, files: Files, op: Op) {
    op.SupersedeOp? && Writes(clock, files, op)
  }

  /** What an operation does to the links: a supersede that writes sets one, nothing else changes any. */
  lemma PerformLinks(clock: Clock, files: Files, op: Op, id: string)
    requires clock.Sane() && Consistent(clock, files)
    ensures SuccessorOf(Perform(clock, files, op), id) ==
      if Links(clock, files, op) && id == op.id then Some(op.successor) else SuccessorOf(files, id)
  {
    hide Import, Supersede, Bury, Valid, Clock.Sane, ArtifactFileName;
    match op
    case ImportOp(envelope, options) =>
      ImportKeepsId(clock, envelope, options);
      ImportIsActive(clock, envelope, options);
    case SupersedeOp(a, b) =>
      ArtifactFileNameInjective(a, id);
      if Writes(clock, files, op) {
        SupersedeSucceedsExactly(clock, files[ArtifactFileName(a)], b);
      }
    case TombstoneOp(a, at, reason) =>
      ArtifactFileNameInjective(a, id);
      if Writes(clock, files, op) {
        BurySucceedsExactly(clock, files[ArtifactFileName(a)], at, reason);
      }
  }

  /** later has the links of files, but a's leads to b. */
  ghost predicate Redirects(files: Files, later: Files, a: string, b: string) {
    forall id :: SuccessorOf(later, id) == if id == a then Some(b) else SuccessorOf(files, id)
  }

  /** A walk of the later store ends as one of the earlier, or its last part is a walk of the earlier from b. */
  lemma {:induction false} LastPart(files: Files, later: Files, a: string, b: string, id: string, n: nat, end: string)
    requires Redirects(files, later, a, b) && Follow(later, id, n) == Some(end)
    ensures Follow(files, id, n) == Some(end) || Reaches(files, b, end)
    decreases n
  {
    hide SuccessorOf, ArtifactFileName;
    if n > 0 {
      var next := SuccessorOf(later, id).value;
      LastPart(files, later, a, b, next, n - 1, end);
    }
  }

  /** A walk of the later store is one of the earlier, or its first part is a walk of the earlier to a. */
  lemma {:induction false} FirstPart(files: Files, later: Files, a: string, b: string, id: string, n: nat, end: string)
    requires Redirects(files, later, a, b) && Follow(later, id, n) == Some(end)
    ensures Follow(files, id, n) == Some(end) || Reaches(files, id, a)
    decreases n
  {
    hide SuccessorOf, ArtifactFileName;
    if id == a {
      assert Follow(files, id, 0) == Some(a);
    } else if n > 0 {
      var next := SuccessorOf(later, id).value;
      FirstPart(files, later, a, b, next, n - 1, end);
      if Reaches(files, next, a) {
        var m: nat :| Follow(files, next, m) == Some(a);
        assert Follow(files, id, m + 1) == Some(a);
      }
    }
  }

  lemma {:induction false} FollowOn(files: Files, from: string, n: nat, middle: string, m: nat)
    requires Follow(files, from, n) == Some(middle)
    ensures Follow(files, from, n + m) == Follow(files, middle, m)
    decreases n
  {
    hide SuccessorOf, ArtifactFileName;
    if n > 0 {
      FollowOn(files, SuccessorOf(files, from).value, n - 1, middle, m);
    }
  }

  /** A walk to a is also one of the later store, cut at its first visit. */
  lemma {:induction false} FirstVisit(files: Files, later: Files, a: string, b: string, id: string, n: nat)
    requires Redirects(files, later, a, b) && Follow(files, id, n) == Some(a)
    ensures Reaches(later, id, a)
    decreases n
  {
    hide SuccessorOf, ArtifactFileName;
    if id == a {
      assert Follow(later, id, 0) == Some(a);
    } else {
      var next := SuccessorOf(files, id).value;
      FirstVisit(files, later, a, b, next, n - 1);
      var m: nat :| Follow(later, next, m) == Some(a);
      assert Follow(later, id, m + 1) == Some(a);
    }
  }

  /** One new link closes a cycle if and only if its end already leads back to its start. */
  lemma LinkClosesExactly(files: Files, later: Files, a: string, b: string)
    requires Redirects(files, later, a, b) && Acyclic(files)
    ensures Acyclic(later) <==> !Reaches(files, b, a)
  {
    hide SuccessorOf, ArtifactFileName, Redirects;
    if id, n: nat :| Cycle(later, id, n) {
      assert !Cycle(files, id, n);
      LastPart(files, later, a, b, id, n, id);
      FirstPart(files, later, a, b, id, n, id);
      var p: nat :| Follow(files, b, p) == Some(id);
      var m: nat :| Follow(files, id, m) == Some(a);
      FollowOn(files, b, p, id, m);
    }
    if Reaches(files, b, a) {
      var n: nat :| Follow(files, b, n) == Some(a);
      FirstVisit(files, later, a, b, b, n);
      var m: nat :| Follow(later, b, m) == Some(a);
      assert SuccessorOf(later, a) == Some(b) by { LinkOf(files, later, a, b); }
      assert Cycle(later, a, m + 1);
    }
  }

  lemma LinkOf(files: Files, later: Files, a: string, b: string)
    requires Redirects(files, later, a, b)
    ensures SuccessorOf(later, a) == Some(b)
  {
  }

  lemma {:induction false} SameLinks(files: Files, later: Files, id: string, n: nat)
    requires forall x :: SuccessorOf(later, x) == SuccessorOf(files, x)
    ensures Follow(later, id, n) == Follow(files, id, n)
    decreases n
  {
    hide SuccessorOf, ArtifactFileName;
    if n > 0 && SuccessorOf(files, id).Some? {
      SameLinks(files, later, SuccessorOf(files, id).value, n - 1);
    }
  }

  /** The operation sets a link whose end already leads back to its start. */
  ghost predicate Closes(clock: Clock, files: Files, op: Op) {
    Links(clock, files, op) && Reaches(files, op.successor, op.id)
  }

  /** An operation on an acyclic store leaves it acyclic if and only if it does not close a cycle. */
  lemma SupersedeStaysAcyclicExactly(clock: Clock, files: Files, op: Op)
    requires clock.Sane() && Consistent(clock, files) && Acyclic(files)
    ensures Acyclic(Perform(clock, files, op)) <==> !Closes(clock, files, op)
  {
    hide Decide, SuccessorOf, ArtifactFileName, Clock.Sane, Consistent, Follow, Perform, Writes;
    var later := Perform(clock, files, op);
    forall id ensures SuccessorOf(later, id) ==
      if Links(clock, files, op) && id == op.id then Some(op.successor) else SuccessorOf(files, id)
    {
      PerformLinks(clock, files, op, id);
    }
    if Links(clock, files, op) {
      LinkClosesExactly(files, later, op.id, op.successor);
    } else {
      forall id, n: nat ensures Cycle(later, id, n) <==> Cycle(files, id, n) {
        SameLinks(files, later, id, n);
      }
    }
  }

  /** A caller's guard: a successor that is another record and still active never closes a cycle. */
  lemma ActiveSuccessorIsSafe(clock: Clock, files: Files, a: string, b: string)
    requires clock.Sane() && Consistent(clock, files) && Acyclic(files) && a != b
    requires ArtifactFileName(b) in files ==> files[ArtifactFileName(b)].localLifecycle.state == Active
    ensures Acyclic(Perform(clock, files, SupersedeOp(a, b)))
  {
    hide Decide, ArtifactFileName, Clock.Sane, Acyclic, Perform, SuccessorOf, Writes, Consistent;
    SupersedeStaysAcyclicExactly(clock, files, SupersedeOp(a, b));
    ActiveHasNoSuccessor(clock, files, b);
    assert forall n: nat :: Follow(files, b, n) == if n == 0 then Some(b) else None;
  }

  lemma ActiveHasNoSuccessor(clock: Clock, files: Files, id: string)
    requires Consistent(clock, files)
    requires ArtifactFileName(id) in files ==> files[ArtifactFileName(id)].localLifecycle.state == Active
    ensures SuccessorOf(files, id) == None
  {
    hide ArtifactFileName, ValidateContext, ValidateProvenance, ValidateKeys;
  }

  // ----- whole runs

  lemma {:induction false} WalksStay(clock: Clock, files: Files, op: Op, id: string, n: nat, end: string)
    requires clock.Sane() && Consistent(clock, files) && Follow(files, id, n) == Some(end)
    ensures Follow(Perform(clock, files, op), id, n) == Some(end)
    decreases n
  {
    hide Decide, Valid, Clock.Sane, ArtifactFileName, Consistent, Perform;
    if n > 0 {
      PerformDescends(clock, files, op, ArtifactFileName(id));
      WalksStay(clock, files, op, SuccessorOf(files, id).value, n - 1, end);
    }
  }

  /** Some operation of the run closes a cycle when its turn comes. */
  ghost predicate SomeCloses(clock: Clock, files: Files, ops: seq<Op>)
    decreases |ops|
  {
    ops != [] && (Closes(clock, files, ops[0]) || SomeCloses(clock, Perform(clock, files, ops[0]), ops[1..]))
  }

  lemma {:induction false} CyclesStay(clock: Clock, files: Files, ops: seq<Op>)
    requires clock.Sane() && Consistent(clock, files) && !Acyclic(files)
    ensures !Acyclic(RunOps(clock, files, ops))
    decreases |ops|
  {
    hide Decide, Perform, Clock.Sane, Consistent, Follow;
    if ops != [] {
      var id, n: nat :| Cycle(files, id, n);
      WalksStay(clock, files, ops[0], id, n, id);
      assert Cycle(Perform(clock, files, ops[0]), id, n);
      PerformKeepsConsistent(clock, files, ops[0]);
      CyclesStay(clock, Perform(clock, files, ops[0]), ops[1..]);
    }
  }

  /** A run from an acyclic store ends acyclic if and only if no call of it closes a cycle when its turn comes. */
  lemma {:induction false} RunStaysAcyclicExactly(clock: Clock, files: Files, ops: seq<Op>)
    requires clock.Sane() && Consistent(clock, files) && Acyclic(files)
    ensures Acyclic(RunOps(clock, files, ops)) <==> !SomeCloses(clock, files, ops)
    decreases |ops|
  {
    hide Decide, Perform, Clock.Sane, Consistent, Acyclic, Closes;
    if ops != [] {
      var next := Perform(clock, files, ops[0]);
      SupersedeStaysAcyclicExactly(clock, files, ops[0]);
      PerformKeepsConsistent(clock, files, ops[0]);
      if Closes(clock, files, ops[0]) {
        CyclesStay(clock, next, ops[1..]);
      } else {
        RunStaysAcyclicExactly(clock, next, ops[1..]);
      }
    }
  }

  // ----- a cycle of two

  /** Supersession is not acyclic: two active records can supersede each other, one after the other. */
  lemma SupersedeCycle(clock: Clock, files: Files, a: string, b: string)
    requires clock.Sane() && Consistent(clock, files) && a != b
    requires ArtifactFileName(a) in files && ArtifactFileName(b) in files
    requires files[ArtifactFileName(a)].localLifecycle.state == Active
    requires files[ArtifactFileName(b)].localLifecycle.state == Active
    ensures var later := RunOps(clock, files, [SupersedeOp(a, b), SupersedeOp(b, a)]);
      && ArtifactFileName(a) in later && ArtifactFileName(b) in later
      && later[ArtifactFileName(a)].localLifecycle.supersededByRecordId == Some(b)
      && later[ArtifactFileName(b)].localLifecycle.supersededByRecordId == Some(a)
  {
    hide Valid, Clock.Sane, ArtifactFileName, Supersede, ValidateRecord;
    ArtifactFileNameInjective(a, b);
    IdIsBounded(clock, files, a);
    IdIsBounded(clock, files, b);
    SupersedeSucceedsExactly(clock, files[ArtifactFileName(a)], b);
    SupersedeSucceedsExactly(clock, files[ArtifactFileName(b)], a);
    var first := Perform(clock, files, SupersedeOp(a, b));
    assert [SupersedeOp(a, b), SupersedeOp(b, a)][1..] == [SupersedeOp(b, a)];
    assert RunOps(clock, first, [SupersedeOp(b, a)]) == Perform(clock, first, SupersedeOp(b, a)) by {
      assert [SupersedeOp(b, a)][1..] == [];
    }
  }

  lemma IdIsBounded(clock: Clock, files: Files, id: string)
    requires Consistent(clock, files) && ArtifactFileName(id) in files
    ensures 0 < |id| <= MAX_MEMORY_RECORD_ID_LENGTH
  {
    hide ArtifactFileName, ValidateContext, ValidateKeys, ValidateLifecycle, ValidateProvenance;
    ArtifactFileNameInjective(id, files[ArtifactFileName(id)].recordId);
  }
}
