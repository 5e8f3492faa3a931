/**
 * What the validation of governed records amounts to, field by field (plugins/memory/src/artifacts.rs).
 */
module ArtifactRules {
  import opened Wrappers
  import opened Artifacts

  /** At most `most` items, each of 1 to 280 characters. */
  ghost predicate GoodItems(items: seq<string>, most: nat) {
    |items| <= most && forall i :: 0 <= i < |items| ==> 0 < |items[i]| <= 280
  }

  ghost predicate GoodContext(c: SessionContext) {
    && 0 < |c.summary| <= 4000 && GoodItems(c.salientFacts, 16) && GoodItems(c.instructionContext, 8)
    && !c.rawTranscriptPersisted
  }

  ghost predicate GoodEnvelope(clock: Clock, e: Envelope) {
    && e.artifactKind == SummaryOnlySessionContextEnvelope && e.requestId != Some("") && e.runId != Some("")
    && (e.capturedAtUtc.Some? ==> clock.parses(e.capturedAtUtc.value)) && GoodContext(e.sessionContext)
  }

  ghost predicate GoodProvenance(clock: Clock, p: Provenance) {
    && p.sourceArtifactKind == SummaryOnlySessionContextEnvelope && p.requestId != Some("") && p.runId != Some("")
    && (p.capturedAtUtc.Some? ==> clock.parses(p.capturedAtUtc.value)) && clock.parses(p.importedAtUtc)
    && p.projectionRulesVersion == "1.0.0"
  }

  /** An active record has neither successor nor tombstone, a superseded one a successor, a buried one a tombstone. */
  ghost predicate GoodLifecycle(clock: Clock, l: Lifecycle) {
    && (l.supersededByRecordId.Some? ==> 0 < |l.supersededByRecordId.value| <= 128)
    && (l.state == Active ==> l.supersededByRecordId.None?)
    && (l.state == Superseded ==> l.supersededByRecordId.Some?)
    && (l.tombstone.Some? <==> l.state == Tombstoned)
    && (l.tombstone.Some? ==> clock.parses(l.tombstone.value.tombstonedAtUtc) && 0 < |l.tombstone.value.reason| <= 280)
  }

  function ScopeName(scope: SessionContextScope): string {
    if scope == Run then "run" else if scope == Session then "session" else "workspace"
  }

  function StateName(state: LifecycleState): string {
    if state == Active then "active" else if state == Superseded then "superseded" else "tombstoned"
  }

  /** The keys are made of the scope, the UTC form of the captured or else the imported time, the state and the ids. */
  ghost predicate GoodKeys(clock: Clock, r: Record) {
    var time := if r.provenance.capturedAtUtc.Some? then r.provenance.capturedAtUtc.value else r.provenance.importedAtUtc;
    var successor := r.localLifecycle.supersededByRecordId;
    var scope := ScopeName(r.sessionContext.scope);
    && clock.canonicalize(time).Some?
    && r.sortKeys.scopeCapturedAtRecordId == scope + "|" + clock.canonicalize(time).value + "|" + r.recordId
    && r.sortKeys.lifecycleStateRecordId == StateName(r.localLifecycle.state) + "|" + scope + "|" + r.recordId
    && r.sortKeys.supersededByRecordIdOrSelf == scope + "|" + (if successor.Some? then successor.value else r.recordId) + "|" + r.recordId
  }

  ghost predicate GoodRecord(clock: Clock, r: Record) {
    && r.artifactKind == GovernedMemoryRecord && 0 < |r.recordId| <= 128 && GoodContext(r.sessionContext)
    && GoodProvenance(clock, r.provenance) && GoodLifecycle(clock, r.localLifecycle) && GoodKeys(clock, r)
  }

  lemma {:induction false} ItemsAreGood(field: string, items: seq<string>, from: nat)
    requires from <= |items|
    ensures ValidateItems(field, items, from) == None <==> forall i :: from <= i < |items| ==> 0 < |items[i]| <= 280
    decreases |items| - from
  {
    if from < |items| {
      ItemsAreGood(field, items, from + 1);
    }
  }

  lemma ContextIsGood(c: SessionContext)
    ensures ValidateContext(c) == None <==> GoodContext(c)
  {
    hide ValidateItems;
    ItemsAreGood("sessionContext.salientFacts", c.salientFacts, 0);
    ItemsAreGood("sessionContext.instructionContext", c.instructionContext, 0);
  }

  /** An envelope passes validation if and only if every field is as the schema says. */
  lemma EnvelopeIsGood(clock: Clock, e: Envelope)
    ensures ValidateEnvelope(clock, e) == None <==> GoodEnvelope(clock, e)
  {
    hide ValidateContext, GoodContext;
    ContextIsGood(e.sessionContext);
  }

  /** What a complaint about an envelope says is so. */
  ghost predicate Blames(clock: Clock, e: Envelope, error: ValidationError) {
    var c := e.sessionContext;
    match error
    case EmptyString(field) =>
      || (field == "requestId" && e.requestId == Some("")) || (field == "runId" && e.runId == Some(""))
      || (field == "sessionContext.summary" && c.summary == "")
    case StringTooLong(field, max, actual) => field == "sessionContext.summary" && max == 4000 < actual == |c.summary|
    case TooManyItems(field, max, actual) =>
      || (field == "sessionContext.salientFacts" && max == 16 < actual == |c.salientFacts|)
      || (field == "sessionContext.instructionContext" && max == 8 < actual == |c.instructionContext|)
    case EmptyItem(field, index) =>
      || (field == "sessionContext.salientFacts" && index < |c.salientFacts| && c.salientFacts[index] == "")
      || (field == "sessionContext.instructionContext" && index < |c.instructionContext| && c.instructionContext[index] == "")
    case ItemTooLong(field, index, max, actual) =>
      && max == 280 < actual
      && ((field == "sessionContext.salientFacts" && index < |c.salientFacts| && actual == |c.salientFacts[index]|)
          || (field == "sessionContext.instructionContext" && index < |c.instructionContext| && actual == |c.instructionContext[index]|))
    case InvalidDateTime(field) => field == "capturedAtUtc" && e.capturedAtUtc.Some? && !clock.parses(e.capturedAtUtc.value)
    case ConstantMismatch(field) => field == "artifactKind" && e.artifactKind != SummaryOnlySessionContextEnvelope
    case RawTranscriptPersistedMustBeFalse => c.rawTranscriptPersisted
    case _ => false
  }

  lemma {:induction false} ItemComplaints(field: string, items: seq<string>, from: nat)
    ensures var r := ValidateItems(field, items, from);
      r.Some? ==>
        || (r.value.EmptyItem? && r.value.field == field && r.value.index < |items| && items[r.value.index] == "")
        || (r.value.ItemTooLong? && r.value.field == field && r.value.index < |items| && r.value.max == 280
            && r.value.actual == |items[r.value.index]| > 280)
    decreases |items| - from
  {
    if from < |items| {
      ItemComplaints(field, items, from + 1);
    }
  }

  /** A rejected envelope is told a true reason. */
  lemma ComplaintsAreTrue(clock: Clock, e: Envelope)
    ensures ValidateEnvelope(clock, e).Some? ==> Blames(clock, e, ValidateEnvelope(clock, e).value)
  {
    hide ValidateItems;
    ItemComplaints("sessionContext.salientFacts", e.sessionContext.salientFacts, 0);
    ItemComplaints("sessionContext.instructionContext", e.sessionContext.instructionContext, 0);
  }

  lemma LifecycleIsGood(clock: Clock, l: Lifecycle)
    ensures ValidateLifecycle(clock, l) == None <==> GoodLifecycle(clock, l)
  {
  }

  lemma KeysAreGood(clock: Clock, r: Record)
    requires clock.Sane() && 0 < |r.recordId| <= 128 && ValidateLifecycle(clock, r.localLifecycle) == None
    ensures ValidateKeys(clock, r) == None <==> GoodKeys(clock, r)
  {
    hide ValidateLifecycle, Clock.Sane;
    NamesAgree(r.sessionContext.scope, r.localLifecycle.state);
    SuccessorIsBounded(clock, r.localLifecycle);
    if GoodKeys(clock, r) {
      DerivedKeysFit(clock, r.recordId, r.sessionContext.scope, r.provenance, r.localLifecycle);
    }
  }

  lemma SuccessorIsBounded(clock: Clock, l: Lifecycle)
    requires ValidateLifecycle(clock, l) == None
    ensures l.supersededByRecordId.Some? ==> 0 < |l.supersededByRecordId.value| <= 128
  {
  }

  lemma NamesAgree(scope: SessionContextScope, state: LifecycleState)
    ensures scope.AsStr() == ScopeName(scope) && state.AsStr() == StateName(state)
  {
  }

  lemma ProvenanceIsGood(clock: Clock, p: Provenance)
    ensures ValidateProvenance(clock, p) == None <==> GoodProvenance(clock, p)
  {
  }

  /** A record passes validation if and only if every field, the derived keys included, is as the schema says. */
  lemma RecordIsGood(clock: Clock, r: Record)
    requires clock.Sane()
    ensures Valid(clock, r) <==> GoodRecord(clock, r)
  {
    hide ValidateContext, GoodContext, ValidateProvenance, GoodProvenance, ValidateLifecycle, GoodLifecycle, ValidateKeys, GoodKeys, Clock.Sane;
    ContextIsGood(r.sessionContext);
    ProvenanceIsGood(clock, r.provenance);
    LifecycleIsGood(clock, r.localLifecycle);
    if 0 < |r.recordId| <= 128 && ValidateLifecycle(clock, r.localLifecycle) == None {
      KeysAreGood(clock, r);
    }
  }

  /** What an import makes of an envelope: an active record of its context and ids, stamped with the UTC form of the import time. */
  lemma ImportMakes(clock: Clock, e: Envelope, options: ImportOptions)
    requires clock.Sane()
    ensures Import(clock, e, options).Ok? <==>
      && GoodEnvelope(clock, e) && 0 < |options.recordId| <= 128
      && clock.canonicalize(options.importedAtUtc).Some?
      && (e.capturedAtUtc.Some? ==> clock.canonicalize(e.capturedAtUtc.value).Some?)
    ensures Import(clock, e, options).Ok? ==>
      var r, stamp := Import(clock, e, options).value, clock.canonicalize(options.importedAtUtc);
      && GoodRecord(clock, r) && stamp.Some?
      && r == Record(GovernedMemoryRecord, options.recordId, e.sessionContext,
                     Provenance(SummaryOnlySessionContextEnvelope, e.requestId, e.runId, e.capturedAtUtc, stamp.value, "1.0.0"),
                     Lifecycle(Active, None, None), r.sortKeys)
  {
    hide Import, GoodEnvelope, Clock.Sane, Valid, GoodRecord;
    EnvelopeIsGood(clock, e);
    ImportSucceedsExactly(clock, e, options);
    ImportFields(clock, e, options);
    if Import(clock, e, options).Ok? {
      RecordIsGood(clock, Import(clock, e, options).value);
    }
  }

  lemma ImportFields(clock: Clock, e: Envelope, options: ImportOptions)
    ensures Import(clock, e, options).Ok? ==>
      var r, stamp := Import(clock, e, options).value, clock.canonicalize(options.importedAtUtc);
      && stamp.Some?
      && r == Record(GovernedMemoryRecord, options.recordId, e.sessionContext,
                     Provenance(SummaryOnlySessionContextEnvelope, e.requestId, e.runId, e.capturedAtUtc, stamp.value, "1.0.0"),
                     Lifecycle(Active, None, None), r.sortKeys)
  {
    hide ValidateEnvelope, ValidateProvenance, ValidateRecord, FromComponents;
  }

  /** A transition rewrites the lifecycle and the keys made of it, to a record that is good again. */
  lemma TransitionsStayGood(clock: Clock, r: Record, t: Transition)
    requires clock.Sane() && GoodRecord(clock, r)
    ensures Transit(clock, r, t).Ok? ==>
      var next := Transit(clock, r, t).value;
      && GoodRecord(clock, next)
      && next == r.(localLifecycle := next.localLifecycle, sortKeys := next.sortKeys)
      && next.localLifecycle ==
           match t
           case ToSuperseded(successor) => Lifecycle(Superseded, Some(successor), None)
           case ToTombstoned(at, reason) => Lifecycle(Tombstoned, r.localLifecycle.supersededByRecordId, Some(Tombstone(at, reason)))
  {
    hide Supersede, Bury, GoodRecord, Valid, Clock.Sane;
    RecordIsGood(clock, r);
    TransitSteps(clock, r, t);
    if Transit(clock, r, t).Ok? {
      RecordIsGood(clock, Transit(clock, r, t).value);
      match t
      case ToSuperseded(successor) => SupersedeSucceedsExactly(clock, r, successor);
      case ToTombstoned(at, reason) => BurySucceedsExactly(clock, r, at, reason);
    }
  }

  // ----- what a rejected record is told

  /** The text of a field of a record. */
  function FieldOf(r: Record, field: string): Option<string> {
    match field
    case "recordId" => Some(r.recordId)
    case "sessionContext.summary" => Some(r.sessionContext.summary)
    case "provenance.requestId" => r.provenance.requestId
    case "provenance.runId" => r.provenance.runId
    case "provenance.capturedAtUtc" => r.provenance.capturedAtUtc
    case "provenance.importedAtUtc" => Some(r.provenance.importedAtUtc)
    case "localLifecycle.supersededByRecordId" => r.localLifecycle.supersededByRecordId
    case "localLifecycle.tombstone.tombstonedAtUtc" =>
      if r.localLifecycle.tombstone.Some? then Some(r.localLifecycle.tombstone.value.tombstonedAtUtc) else None
    case "localLifecycle.tombstone.reason" =>
      if r.localLifecycle.tombstone.Some? then Some(r.localLifecycle.tombstone.value.reason) else None
    case "deterministicSortKeys.scopeCapturedAtRecordId" => Some(r.sortKeys.scopeCapturedAtRecordId)
    case "deterministicSortKeys.lifecycleStateRecordId" => Some(r.sortKeys.lifecycleStateRecordId)
    case "deterministicSortKeys.supersededByRecordIdOrSelf" => Some(r.sortKeys.supersededByRecordIdOrSelf)
    case _ => None
  }

  /** How long the text of a field may be. */
  function MostOf(field: string): nat {
    match field
    case "recordId" => 128
    case "localLifecycle.supersededByRecordId" => 128
    case "sessionContext.summary" => 4000
    case _ => 280
  }

  function ItemsOf(c: SessionContext, field: string): seq<string> {
    if field == "sessionContext.salientFacts" then c.salientFacts
    else if field == "sessionContext.instructionContext" then c.instructionContext
    else []
  }

  /** What a complaint about a record says is so. */
  ghost predicate BlamesRecord(clock: Clock, r: Record, error: ValidationError) {
    var l := r.localLifecycle;
    match error
    case EmptyString(field) => FieldOf(r, field) == Some("")
    case StringTooLong(field, max, actual) =>
      FieldOf(r, field).Some? && actual == |FieldOf(r, field).value| > max == MostOf(field)
    case TooManyItems(field, max, actual) =>
      actual == |ItemsOf(r.sessionContext, field)| > max && max == if field == "sessionContext.salientFacts" then 16 else 8
    case EmptyItem(field, index) => index < |ItemsOf(r.sessionContext, field)| && ItemsOf(r.sessionContext, field)[index] == ""
    case ItemTooLong(field, index, max, actual) =>
      index < |ItemsOf(r.sessionContext, field)| && actual == |ItemsOf(r.sessionContext, field)[index]| > max == 280
    case InvalidDateTime(field) =>
      && FieldOf(r, field).Some? && field[|field| - 3..] == "Utc"
      && (!clock.parses(FieldOf(r, field).value) || clock.canonicalize(FieldOf(r, field).value).None?)
    case ConstantMismatch(field) =>
      || (field == "artifactKind" && r.artifactKind != GovernedMemoryRecord)
      || (field == "provenance.sourceArtifactKind" && r.provenance.sourceArtifactKind != SummaryOnlySessionContextEnvelope)
      || (field == "provenance.projectionRulesVersion" && r.provenance.projectionRulesVersion != "1.0.0")
    case RawTranscriptPersistedMustBeFalse => r.sessionContext.rawTranscriptPersisted
    case MissingLifecycleMetadata(field) =>
      || (field == "localLifecycle.supersededByRecordId" && l.state == Superseded && l.supersededByRecordId.None?)
      || (field == "localLifecycle.tombstone" && l.state == Tombstoned && l.tombstone.None?)
    case UnexpectedLifecycleMetadata(field) =>
      || (field == "localLifecycle.supersededByRecordId" && l.state == Active && l.supersededByRecordId.Some?)
      || (field == "localLifecycle.tombstone" && l.state != Tombstoned && l.tombstone.Some?)
    case DeterministicSortKeyMismatch(field) => FieldOf(r, field).Some? && !GoodKeys(clock, r) && WrongKey(clock, r, field)
    case InvalidLifecycleTransition(_, _) => false
  }

  /** The key of that field is not the one made of scope, time, state and ids. */
  ghost predicate WrongKey(clock: Clock, r: Record, field: string) {
    var time := if r.provenance.capturedAtUtc.Some? then r.provenance.capturedAtUtc.value else r.provenance.importedAtUtc;
    var successor := if r.localLifecycle.supersededByRecordId.Some? then r.localLifecycle.supersededByRecordId.value else r.recordId;
    var scope := ScopeName(r.sessionContext.scope);
    && clock.canonicalize(time).Some? && FieldOf(r, field).Some?
    && FieldOf(r, field).value !=
         match field
         case "deterministicSortKeys.scopeCapturedAtRecordId" => scope + "|" + clock.canonicalize(time).value + "|" + r.recordId
         case "deterministicSortKeys.lifecycleStateRecordId" => StateName(r.localLifecycle.state) + "|" + scope + "|" + r.recordId
         case "deterministicSortKeys.supersededByRecordIdOrSelf" => scope + "|" + successor + "|" + r.recordId
         case _ => FieldOf(r, field).value
  }

  lemma ContextComplaints(clock: Clock, r: Record)
    ensures ValidateContext(r.sessionContext).Some? ==> BlamesRecord(clock, r, ValidateContext(r.sessionContext).value)
  {
    hide ValidateItems, GoodKeys, WrongKey;
    ItemComplaints("sessionContext.salientFacts", r.sessionContext.salientFacts, 0);
    ItemComplaints("sessionContext.instructionContext", r.sessionContext.instructionContext, 0);
  }

  lemma ProvenanceComplaints(clock: Clock, r: Record)
    ensures ValidateProvenance(clock, r.provenance).Some? ==> BlamesRecord(clock, r, ValidateProvenance(clock, r.provenance).value)
  {
    hide GoodKeys, WrongKey;
  }

  lemma LifecycleComplaints(clock: Clock, r: Record)
    ensures ValidateLifecycle(clock, r.localLifecycle).Some? ==>
      BlamesRecord(clock, r, ValidateLifecycle(clock, r.localLifecycle).value)
  {
    hide GoodKeys, WrongKey;
  }

  lemma SortKeyComplaint(clock: Clock, r: Record, field: string, expected: string)
    requires FieldOf(r, field).Some? && MostOf(field) == 280
    requires FieldOf(r, field).value != expected ==> !GoodKeys(clock, r) && WrongKey(clock, r, field)
    ensures var e := ValidateSortKey(field, FieldOf(r, field).value, expected); e.Some? ==> BlamesRecord(clock, r, e.value)
  {
    hide FieldOf, MostOf, GoodKeys, WrongKey;
  }

  /** The keys expected are the ones made of scope, time, state and ids. */
  lemma ExpectedKeys(clock: Clock, r: Record)
    ensures var keys := FromComponents(clock, r.recordId, r.sessionContext.scope, r.provenance, r.localLifecycle);
      && (keys.Err? ==> BlamesRecord(clock, r, keys.error))
      && (keys.Ok? ==>
            && (r.sortKeys.scopeCapturedAtRecordId != keys.value.scopeCapturedAtRecordId ==>
                  !GoodKeys(clock, r) && WrongKey(clock, r, "deterministicSortKeys.scopeCapturedAtRecordId"))
            && (r.sortKeys.lifecycleStateRecordId != keys.value.lifecycleStateRecordId ==>
                  !GoodKeys(clock, r) && WrongKey(clock, r, "deterministicSortKeys.lifecycleStateRecordId"))
            && (r.sortKeys.supersededByRecordIdOrSelf != keys.value.supersededByRecordIdOrSelf ==>
                  !GoodKeys(clock, r) && WrongKey(clock, r, "deterministicSortKeys.supersededByRecordIdOrSelf")))
  {
    hide SessionContextScope.AsStr, LifecycleState.AsStr, ScopeName, StateName, ValidateEnvelope, ValidateRecord, ValidateLifecycle;
    NamesAgree(r.sessionContext.scope, r.localLifecycle.state);
  }

  lemma KeyComplaints(clock: Clock, r: Record)
    ensures ValidateKeys(clock, r).Some? ==> BlamesRecord(clock, r, ValidateKeys(clock, r).value)
  {
    hide GoodKeys, WrongKey, FromComponents, ValidateSortKey, BlamesRecord;
    ExpectedKeys(clock, r);
    var keys := FromComponents(clock, r.recordId, r.sessionContext.scope, r.provenance, r.localLifecycle);
    if keys.Ok? {
      SortKeyComplaint(clock, r, "deterministicSortKeys.scopeCapturedAtRecordId", keys.value.scopeCapturedAtRecordId);
      SortKeyComplaint(clock, r, "deterministicSortKeys.lifecycleStateRecordId", keys.value.lifecycleStateRecordId);
      SortKeyComplaint(clock, r, "deterministicSortKeys.supersededByRecordIdOrSelf", keys.value.supersededByRecordIdOrSelf);
    }
  }

  /** A rejected record is told a true reason. */
  lemma RecordComplaintsAreTrue(clock: Clock, r: Record)
    ensures ValidateRecord(clock, r).Some? ==> BlamesRecord(clock, r, ValidateRecord(clock, r).value)
  {
    hide ValidateContext, ValidateProvenance, ValidateLifecycle, ValidateKeys, WrongKey, GoodKeys;
    ContextComplaints(clock, r);
    ProvenanceComplaints(clock, r);
    LifecycleComplaints(clock, r);
    KeyComplaints(clock, r);
  }

  /** A refused import complains of the envelope first, then of the id, of the import time and of the captured time. */
  lemma ImportRefuses(clock: Clock, e: Envelope, options: ImportOptions)
    requires clock.Sane()
    ensures var r := Import(clock, e, options);
      r.Err? ==>
        if ValidateEnvelope(clock, e).Some? then Blames(clock, e, r.error)
        else if options.recordId == "" then r.error == EmptyString("recordId")
        else if |options.recordId| > 128 then r.error == StringTooLong("recordId", 128, |options.recordId|)
        else if clock.canonicalize(options.importedAtUtc).None? then r.error == InvalidDateTime("provenance.importedAtUtc")
        else r.error == InvalidDateTime("provenance.capturedAtUtc")
  {
    hide ValidateEnvelope, ValidateRecord, Blames, Clock.Sane;
    ComplaintsAreTrue(clock, e);
    ImportSucceedsExactly(clock, e, options);
    ImportRefusal(clock, e, options);
  }

  lemma ImportRefusal(clock: Clock, e: Envelope, options: ImportOptions)
    requires clock.Sane()
    ensures var r := Import(clock, e, options);
      && (ValidateEnvelope(clock, e).Some? ==> r == Err(ValidateEnvelope(clock, e).value))
      && (ValidateEnvelope(clock, e).None? && options.recordId == "" ==> r == Err(EmptyString("recordId")))
      && (ValidateEnvelope(clock, e).None? && |options.recordId| > 128 ==> r == Err(StringTooLong("recordId", 128, |options.recordId|)))
      && (ValidateEnvelope(clock, e).None? && 0 < |options.recordId| <= 128 && clock.canonicalize(options.importedAtUtc).None? ==>
            r == Err(InvalidDateTime("provenance.importedAtUtc")))
      && (ValidateEnvelope(clock, e).None? && 0 < |options.recordId| <= 128 && clock.canonicalize(options.importedAtUtc).Some?
          && e.capturedAtUtc.Some? && clock.canonicalize(e.capturedAtUtc.value).None? ==>
            r == Err(InvalidDateTime("provenance.capturedAtUtc")))
  {
    hide ValidateContext, ValidateRecord;
  }
}
