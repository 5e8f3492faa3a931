/** Governed memory records and their lifecycle (plugins/memory/src/artifacts.rs). */
module Artifacts {
  import opened Wrappers

  const MAX_SUMMARY_LENGTH: nat := 4000
  const MAX_SALIENT_FACTS: nat := 16
  const MAX_INSTRUCTION_CONTEXT_ITEMS: nat := 8
  const MAX_CONTEXT_ITEM_LENGTH: nat := 280
  const MAX_MEMORY_RECORD_ID_LENGTH: nat := 128
  const MAX_MEMORY_SORT_KEY_LENGTH: nat := 280
  const MEMORY_PROJECTION_RULES_VERSION := "1.0.0"

  datatype ArtifactKind = SummaryOnlySessionContextEnvelope | GovernedMemoryRecord | GovernedMemoryRecordProjection

  datatype SessionContextScope = Run | Session | Workspace {
    function AsStr(): string {
      match this
      case Run => "run"
      case Session => "session"
      case Workspace => "workspace"
    }
  }

  datatype LifecycleState = Active | Superseded | Tombstoned {
    function AsStr(): string {
      match this
      case Active => "active"
      case Superseded => "superseded"
      case Tombstoned => "tombstoned"
    }

    function Stage(): nat {
      match this
      case Active => 1
      case Superseded => 2
      case Tombstoned => 3
    }

    predicate CanTransitionTo(next: LifecycleState) {
      match (this, next)
      case (Active, Superseded) => true
      case (Active, Tombstoned) => true
      case (Superseded, Tombstoned) => true
      case _ => false
    }
  }

  datatype SessionContext = SessionContext(
    scope: SessionContextScope,
    summary: string,
    salientFacts: seq<string>,
    instructionContext: seq<string>,
    rawTranscriptPersisted: bool)

  datatype Envelope = Envelope(
    artifactKind: ArtifactKind,
    requestId: Option<string>,
    runId: Option<string>,
    capturedAtUtc: Option<string>,
    sessionContext: SessionContext)

  datatype Provenance = Provenance(
    sourceArtifactKind: ArtifactKind,
    requestId: Option<string>,
    runId: Option<string>,
    capturedAtUtc: Option<string>,
    importedAtUtc: string,
    projectionRulesVersion: string)

  datatype Tombstone = Tombstone(tombstonedAtUtc: string, reason: string)

  datatype Lifecycle = Lifecycle(state: LifecycleState, supersededByRecordId: Option<string>, tombstone: Option<Tombstone>)

  datatype SortKeys = SortKeys(
    scopeCapturedAtRecordId: string,
    lifecycleStateRecordId: string,
    supersededByRecordIdOrSelf: string)

  datatype Record = Record(
    artifactKind: ArtifactKind,
    recordId: string,
    sessionContext: SessionContext,
    provenance: Provenance,
    localLifecycle: Lifecycle,
    sortKeys: SortKeys)

  datatype ImportOptions = ImportOptions(recordId: string, importedAtUtc: string)

  datatype ValidationError =
    | EmptyString(field: string)
    | StringTooLong(field: string, max: nat, actual: nat)
    | TooManyItems(field: string, max: nat, actual: nat)
    | EmptyItem(field: string, index: nat)
    | ItemTooLong(field: string, index: nat, max: nat, actual: nat)
    | InvalidDateTime(field: string)
    | ConstantMismatch(field: string)
    | RawTranscriptPersistedMustBeFalse
    | MissingLifecycleMetadata(field: string)
    | UnexpectedLifecycleMetadata(field: string)
    | InvalidLifecycleTransition(from: LifecycleState, to: LifecycleState)
    | DeterministicSortKeyMismatch(field: string)

  /** None when the value is valid. */
  type Check = Option<ValidationError>

  /**
   * Date-times of RFC 3339, section 5.6, as parameters: which strings parse, and the UTC form of those that have
   * one (a date-time that parses may leave the years that can be written).
   */
  datatype Clock = Clock(parses: string -> bool, canonicalize: string -> Option<string>) {
    /** What is assumed of the library: a UTC form is short, has no '|', and is its own UTC form. */
    ghost predicate Sane() {
      forall s {:trigger canonicalize(s)} :: canonicalize(s).Some? ==>
        && parses(s)
        && |canonicalize(s).value| <= 30 && '|' !in canonicalize(s).value
        && parses(canonicalize(s).value) && canonicalize(canonicalize(s).value) == canonicalize(s)
    }
  }

  // ----- validation

  function Both(a: Check, b: Check): Check {
    if a.Some? then a else b
  }

  function ValidateBounded(field: string, value: string, max: nat): Check {
    if |value| == 0 then Some(EmptyString(field))
    else if |value| > max then Some(StringTooLong(field, max, |value|))
    else None
  }

  function ValidateOptionalNonEmpty(field: string, value: Option<string>): Check {
    if value == Some("") then Some(EmptyString(field)) else None
  }

  function ValidateItems(field: string, items: seq<string>, from: nat): Check
    decreases |items| - from
  {
    if from >= |items| then None
    else if |items[from]| == 0 then Some(EmptyItem(field, from))
    else if |items[from]| > MAX_CONTEXT_ITEM_LENGTH then
      Some(ItemTooLong(field, from, MAX_CONTEXT_ITEM_LENGTH, |items[from]|))
    else ValidateItems(field, items, from + 1)
  }

  function ValidateBoundedItems(field: string, items: seq<string>, maxItems: nat): Check {
    if |items| > maxItems then Some(TooManyItems(field, maxItems, |items|)) else ValidateItems(field, items, 0)
  }

  function ValidateDateTime(clock: Clock, field: string, value: string): Check {
    if clock.parses(value) then None else Some(InvalidDateTime(field))
  }

  function ValidateOptionalDateTime(clock: Clock, field: string, value: Option<string>): Check {
    if value.Some? then ValidateDateTime(clock, field, value.value) else None
  }

  function ValidateContext(c: SessionContext): Check {
    Both(ValidateBounded("sessionContext.summary", c.summary, MAX_SUMMARY_LENGTH),
    Both(ValidateBoundedItems("sessionContext.salientFacts", c.salientFacts, MAX_SALIENT_FACTS),
    Both(ValidateBoundedItems("sessionContext.instructionContext", c.instructionContext, MAX_INSTRUCTION_CONTEXT_ITEMS),
         if c.rawTranscriptPersisted then Some(RawTranscriptPersistedMustBeFalse) else None)))
  }

  function ValidateEnvelope(clock: Clock, e: Envelope): Check {
    Both(if e.artifactKind != SummaryOnlySessionContextEnvelope then Some(ConstantMismatch("artifactKind")) else None,
    Both(ValidateOptionalNonEmpty("requestId", e.requestId),
    Both(ValidateOptionalNonEmpty("runId", e.runId),
    Both(ValidateOptionalDateTime(clock, "capturedAtUtc", e.capturedAtUtc),
         ValidateContext(e.sessionContext)))))
  }

  function ValidateProvenance(clock: Clock, p: Provenance): Check {
    Both(if p.sourceArtifactKind != SummaryOnlySessionContextEnvelope then Some(ConstantMismatch("provenance.sourceArtifactKind")) else None,
    Both(ValidateOptionalNonEmpty("provenance.requestId", p.requestId),
    Both(ValidateOptionalNonEmpty("provenance.runId", p.runId),
    Both(ValidateOptionalDateTime(clock, "provenance.capturedAtUtc", p.capturedAtUtc),
    Both(ValidateDateTime(clock, "provenance.importedAtUtc", p.importedAtUtc),
         if p.projectionRulesVersion != MEMORY_PROJECTION_RULES_VERSION
         then Some(ConstantMismatch("provenance.projectionRulesVersion")) else None)))))
  }

  function ValidateTombstone(clock: Clock, t: Tombstone): Check {
    Both(ValidateDateTime(clock, "localLifecycle.tombstone.tombstonedAtUtc", t.tombstonedAtUtc),
         ValidateBounded("localLifecycle.tombstone.reason", t.reason, MAX_CONTEXT_ITEM_LENGTH))
  }

  function ValidateLifecycle(clock: Clock, l: Lifecycle): Check {
    Both(
      if l.supersededByRecordId.Some?
      then ValidateBounded("localLifecycle.supersededByRecordId", l.supersededByRecordId.value, MAX_MEMORY_RECORD_ID_LENGTH)
      else None,
      match l.state
      case Active =>
        if l.supersededByRecordId.Some? then Some(UnexpectedLifecycleMetadata("localLifecycle.supersededByRecordId"))
        else if l.tombstone.Some? then Some(UnexpectedLifecycleMetadata("localLifecycle.tombstone"))
        else None
      case Superseded =>
        if l.supersededByRecordId.None? then Some(MissingLifecycleMetadata("localLifecycle.supersededByRecordId"))
        else if l.tombstone.Some? then Some(UnexpectedLifecycleMetadata("localLifecycle.tombstone"))
        else None
      case Tombstoned =>
        if l.tombstone.None? then Some(MissingLifecycleMetadata("localLifecycle.tombstone"))
        else ValidateTombstone(clock, l.tombstone.value))
  }

  // ----- derived sort keys

  function Join(a: string, b: string, c: string): (k: string)
    ensures |k| == |a| + |b| + |c| + 2
  {
    a + "|" + b + "|" + c
  }

  function SortTimestamp(clock: Clock, p: Provenance): Result<string, ValidationError> {
    match p.capturedAtUtc
    case Some(value) =>
      if clock.canonicalize(value).Some? then Ok(clock.canonicalize(value).value)
      else Err(InvalidDateTime("provenance.capturedAtUtc"))
    case None =>
      if clock.canonicalize(p.importedAtUtc).Some? then Ok(clock.canonicalize(p.importedAtUtc).value)
      else Err(InvalidDateTime("provenance.importedAtUtc"))
  }

  function FromComponents(clock: Clock, recordId: string, scope: SessionContextScope, p: Provenance, l: Lifecycle)
    : Result<SortKeys, ValidationError>
  {
    var stamp :- SortTimestamp(clock, p);
    var supersededBy := if l.supersededByRecordId.Some? then l.supersededByRecordId.value else recordId;
    Ok(SortKeys(Join(scope.AsStr(), stamp, recordId),
                Join(l.state.AsStr(), scope.AsStr(), recordId),
                Join(scope.AsStr(), supersededBy, recordId)))
  }

  function ValidateSortKey(field: string, actual: string, expected: string): Check {
    Both(ValidateBounded(field, actual, MAX_MEMORY_SORT_KEY_LENGTH),
         if actual != expected then Some(DeterministicSortKeyMismatch(field)) else None)
  }

  function ValidateKeys(clock: Clock, r: Record): Check {
    match FromComponents(clock, r.recordId, r.sessionContext.scope, r.provenance, r.localLifecycle)
    case Err(e) => Some(e)
    case Ok(expected) =>
      Both(ValidateSortKey("deterministicSortKeys.scopeCapturedAtRecordId",
                           r.sortKeys.scopeCapturedAtRecordId, expected.scopeCapturedAtRecordId),
      Both(ValidateSortKey("deterministicSortKeys.lifecycleStateRecordId",
                           r.sortKeys.lifecycleStateRecordId, expected.lifecycleStateRecordId),
           ValidateSortKey("deterministicSortKeys.supersededByRecordIdOrSelf",
                           r.sortKeys.supersededByRecordIdOrSelf, expected.supersededByRecordIdOrSelf)))
  }

  function ValidateRecord(clock: Clock, r: Record): Check {
    Both(if r.artifactKind != GovernedMemoryRecord then Some(ConstantMismatch("artifactKind")) else None,
    Both(ValidateBounded("recordId", r.recordId, MAX_MEMORY_RECORD_ID_LENGTH),
    Both(ValidateContext(r.sessionContext),
    Both(ValidateProvenance(clock, r.provenance),
    Both(ValidateLifecycle(clock, r.localLifecycle),
         ValidateKeys(clock, r))))))
  }

  /** A record that passes its validation, as every stored one does. */
  predicate Valid(clock: Clock, r: Record) {
    ValidateRecord(clock, r).None?
  }

  function Validated(clock: Clock, r: Record): Result<Record, ValidationError> {
    match ValidateRecord(clock, r)
    case Some(e) => Err(e)
    case None => Ok(r)
  }

  // ----- import, export and the transitions

  function Import(clock: Clock, e: Envelope, options: ImportOptions): Result<Record, ValidationError> {
    var check := Both(ValidateEnvelope(clock, e),
                 Both(ValidateBounded("recordId", options.recordId, MAX_MEMORY_RECORD_ID_LENGTH),
                      ValidateDateTime(clock, "provenance.importedAtUtc", options.importedAtUtc)));
    if check.Some? then Err(check.value)
    else if clock.canonicalize(options.importedAtUtc).None? then Err(InvalidDateTime("provenance.importedAtUtc"))
    else
      var p := Provenance(SummaryOnlySessionContextEnvelope, e.requestId, e.runId, e.capturedAtUtc,
                          clock.canonicalize(options.importedAtUtc).value, MEMORY_PROJECTION_RULES_VERSION);
      if ValidateProvenance(clock, p).Some? then Err(ValidateProvenance(clock, p).value)
      else
        var l := Lifecycle(Active, None, None);
        var keys :- FromComponents(clock, options.recordId, e.sessionContext.scope, p, l);
        Validated(clock, Record(GovernedMemoryRecord, options.recordId, e.sessionContext, p, l, keys))
  }

  function Export(clock: Clock, r: Record): Result<Envelope, ValidationError> {
    if ValidateRecord(clock, r).Some? then Err(ValidateRecord(clock, r).value)
    else
      var e := Envelope(SummaryOnlySessionContextEnvelope, r.provenance.requestId, r.provenance.runId,
                        r.provenance.capturedAtUtc, r.sessionContext);
      if ValidateEnvelope(clock, e).Some? then Err(ValidateEnvelope(clock, e).value) else Ok(e)
  }

  function WithLifecycle(clock: Clock, r: Record, l: Lifecycle): Result<Record, ValidationError> {
    var keys :- FromComponents(clock, r.recordId, r.sessionContext.scope, r.provenance, l);
    Validated(clock, r.(localLifecycle := l, sortKeys := keys))
  }

  function Supersede(clock: Clock, r: Record, supersededBy: string): Result<Record, ValidationError> {
    if !r.localLifecycle.state.CanTransitionTo(Superseded) then
      Err(InvalidLifecycleTransition(r.localLifecycle.state, Superseded))
    else
      var l := Lifecycle(Superseded, Some(supersededBy), None);
      if ValidateLifecycle(clock, l).Some? then Err(ValidateLifecycle(clock, l).value) else WithLifecycle(clock, r, l)
  }

  function Bury(clock: Clock, r: Record, tombstonedAtUtc: string, reason: string): Result<Record, ValidationError> {
    var t := Tombstone(tombstonedAtUtc, reason);
    if ValidateTombstone(clock, t).Some? then Err(ValidateTombstone(clock, t).value)
    else if !r.localLifecycle.state.CanTransitionTo(Tombstoned) then
      Err(InvalidLifecycleTransition(r.localLifecycle.state, Tombstoned))
    else
      var l := Lifecycle(Tombstoned, r.localLifecycle.supersededByRecordId, Some(t));
      if ValidateLifecycle(clock, l).Some? then Err(ValidateLifecycle(clock, l).value) else WithLifecycle(clock, r, l)
  }

  // ----- keys always fit

  lemma TimestampFits(clock: Clock, p: Provenance)
    requires clock.Sane()
    ensures SortTimestamp(clock, p).Ok? ==> |SortTimestamp(clock, p).value| <= 30 && '|' !in SortTimestamp(clock, p).value
  {
  }

  /** Ids of at most 128 characters give keys of at most 9 + 1 + 128 + 1 + 128 = 267 characters. */
  lemma DerivedKeysFit(clock: Clock, recordId: string, scope: SessionContextScope, p: Provenance, l: Lifecycle)
    requires clock.Sane()
    requires |recordId| <= MAX_MEMORY_RECORD_ID_LENGTH
    requires l.supersededByRecordId.Some? ==> |l.supersededByRecordId.value| <= MAX_MEMORY_RECORD_ID_LENGTH
    ensures var keys := FromComponents(clock, recordId, scope, p, l);
      keys.Ok? ==>
        && 0 < |keys.value.scopeCapturedAtRecordId| <= 169
        && 0 < |keys.value.lifecycleStateRecordId| <= 149
        && 0 < |keys.value.supersededByRecordIdOrSelf| <= 267
  {
    TimestampFits(clock, p);
  }

  lemma KeysValidate(clock: Clock, r: Record)
    requires clock.Sane() && 0 < |r.recordId| <= MAX_MEMORY_RECORD_ID_LENGTH
    requires ValidateLifecycle(clock, r.localLifecycle).None?
    requires FromComponents(clock, r.recordId, r.sessionContext.scope, r.provenance, r.localLifecycle) == Ok(r.sortKeys)
    ensures ValidateKeys(clock, r).None?
  {
    DerivedKeysFit(clock, r.recordId, r.sessionContext.scope, r.provenance, r.localLifecycle);
  }

  // ----- exactly when the operations succeed

  /** An import succeeds exactly for a valid envelope, a bounded id and time stamps that have a UTC form. */
  lemma ImportSucceedsExactly(clock: Clock, e: Envelope, options: ImportOptions)
    requires clock.Sane()
    ensures Import(clock, e, options).Ok? <==>
      && ValidateEnvelope(clock, e).None?
      && 0 < |options.recordId| <= MAX_MEMORY_RECORD_ID_LENGTH
      && clock.canonicalize(options.importedAtUtc).Some?
      && (e.capturedAtUtc.Some? ==> clock.canonicalize(e.capturedAtUtc.value).Some?)
    ensures Import(clock, e, options).Ok? ==>
      var r := Import(clock, e, options).value;
      Valid(clock, r) && r.recordId == options.recordId && r.localLifecycle.state == Active
  {
    hide ValidateKeys, ValidateContext;
    if ValidateEnvelope(clock, e).None? && 0 < |options.recordId| <= MAX_MEMORY_RECORD_ID_LENGTH
       && clock.canonicalize(options.importedAtUtc).Some?
    {
      var p := Provenance(SummaryOnlySessionContextEnvelope, e.requestId, e.runId, e.capturedAtUtc,
                          clock.canonicalize(options.importedAtUtc).value, MEMORY_PROJECTION_RULES_VERSION);
      var l := Lifecycle(Active, None, None);
      var keys := FromComponents(clock, options.recordId, e.sessionContext.scope, p, l);
      if keys.Ok? {
        KeysValidate(clock, Record(GovernedMemoryRecord, options.recordId, e.sessionContext, p, l, keys.value));
      }
    }
  }

  lemma WithLifecycleSucceeds(clock: Clock, r: Record, l: Lifecycle)
    requires clock.Sane() && Valid(clock, r) && ValidateLifecycle(clock, l).None?
    ensures WithLifecycle(clock, r, l).Ok?
    ensures var next := WithLifecycle(clock, r, l).value;
      && Valid(clock, next)
      && next == r.(localLifecycle := l, sortKeys := next.sortKeys)
      && next.sortKeys.scopeCapturedAtRecordId == r.sortKeys.scopeCapturedAtRecordId
  {
    hide ValidateContext, ValidateProvenance, ValidateLifecycle, Join;
    var keys := FromComponents(clock, r.recordId, r.sessionContext.scope, r.provenance, l);
    KeysValidate(clock, r.(localLifecycle := l, sortKeys := keys.value));
  }

  /** Superseding a valid record succeeds exactly when it is active and the successor's id is bounded. */
  lemma SupersedeSucceedsExactly(clock: Clock, r: Record, supersededBy: string)
    requires clock.Sane() && Valid(clock, r)
    ensures Supersede(clock, r, supersededBy).Ok? <==>
      r.localLifecycle.state == Active && 0 < |supersededBy| <= MAX_MEMORY_RECORD_ID_LENGTH
    ensures Supersede(clock, r, supersededBy).Ok? ==>
      StepsTo(clock, r, Supersede(clock, r, supersededBy).value)
      && Supersede(clock, r, supersededBy).value.localLifecycle == Lifecycle(Superseded, Some(supersededBy), None)
  {
    hide WithLifecycle, ValidateKeys, ValidateContext, ValidateProvenance;
    var l := Lifecycle(Superseded, Some(supersededBy), None);
    if ValidateLifecycle(clock, l).None? {
      WithLifecycleSucceeds(clock, r, l);
    }
  }

  /** Burying a valid record succeeds exactly when it has no tombstone, the time parses and the reason is bounded. */
  lemma BurySucceedsExactly(clock: Clock, r: Record, at: string, reason: string)
    requires clock.Sane() && Valid(clock, r)
    ensures Bury(clock, r, at, reason).Ok? <==>
      && r.localLifecycle.state != Tombstoned
      && clock.parses(at) && 0 < |reason| <= MAX_CONTEXT_ITEM_LENGTH
    ensures Bury(clock, r, at, reason).Ok? ==>
      StepsTo(clock, r, Bury(clock, r, at, reason).value)
      && Bury(clock, r, at, reason).value.localLifecycle ==
           Lifecycle(Tombstoned, r.localLifecycle.supersededByRecordId, Some(Tombstone(at, reason)))
  {
    hide WithLifecycle, ValidateKeys, ValidateContext, ValidateProvenance;
    var t := Tombstone(at, reason);
    var l := Lifecycle(Tombstoned, r.localLifecycle.supersededByRecordId, Some(t));
    if ValidateTombstone(clock, t).None? {
      assert ValidateLifecycle(clock, l).None?;
      WithLifecycleSucceeds(clock, r, l);
    }
  }

  /** What a refused supersession complains of: the state first, then the successor's id. */
  function SupersedeRefusal(state: LifecycleState, successor: string): ValidationError {
    if state != Active then InvalidLifecycleTransition(state, Superseded)
    else if successor == "" then EmptyString("localLifecycle.supersededByRecordId")
    else StringTooLong("localLifecycle.supersededByRecordId", 128, |successor|)
  }

  lemma SupersedeRefuses(clock: Clock, r: Record, successor: string)
    requires clock.Sane() && Valid(clock, r)
    ensures Supersede(clock, r, successor).Err? ==>
      Supersede(clock, r, successor).error == SupersedeRefusal(r.localLifecycle.state, successor)
  {
    hide WithLifecycle, Valid;
    var l := Lifecycle(Superseded, Some(successor), None);
    if ValidateLifecycle(clock, l).None? {
      WithLifecycleSucceeds(clock, r, l);
    }
  }

  /** What a refused burial complains of: the time first, then the reason, then the state. */
  function BuryRefusal(clock: Clock, state: LifecycleState, at: string, reason: string): ValidationError {
    if !clock.parses(at) then InvalidDateTime("localLifecycle.tombstone.tombstonedAtUtc")
    else if reason == "" then EmptyString("localLifecycle.tombstone.reason")
    else if |reason| > 280 then StringTooLong("localLifecycle.tombstone.reason", 280, |reason|)
    else InvalidLifecycleTransition(state, Tombstoned)
  }

  lemma BuryRefuses(clock: Clock, r: Record, at: string, reason: string)
    requires clock.Sane() && Valid(clock, r)
    ensures Bury(clock, r, at, reason).Err? ==>
      Bury(clock, r, at, reason).error == BuryRefusal(clock, r.localLifecycle.state, at, reason)
  {
    hide Bury, Valid, Clock.Sane;
    BurySucceedsExactly(clock, r, at, reason);
    if Bury(clock, r, at, reason).Err? {
      BuryError(clock, r, at, reason);
    }
  }

  lemma BuryError(clock: Clock, r: Record, at: string, reason: string)
    requires clock.Sane() && Valid(clock, r)
    requires !(r.localLifecycle.state != Tombstoned && clock.parses(at) && 0 < |reason| <= 280)
    ensures Bury(clock, r, at, reason) == Err(BuryRefusal(clock, r.localLifecycle.state, at, reason))
  {
    hide WithLifecycle, ValidateKeys, ValidateContext, ValidateProvenance;
  }

  // ----- what every transition keeps

  /** next differs from r only in its lifecycle, which moved forward, and in the keys derived from it. */
  ghost predicate StepsTo(clock: Clock, r: Record, next: Record) {
    && Valid(clock, next)
    && next == r.(localLifecycle := next.localLifecycle, sortKeys := next.sortKeys)
    && next.sortKeys.scopeCapturedAtRecordId == r.sortKeys.scopeCapturedAtRecordId
    && r.localLifecycle.state.Stage() < next.localLifecycle.state.Stage()
    && (r.localLifecycle.supersededByRecordId.Some? ==>
          next.localLifecycle.supersededByRecordId == r.localLifecycle.supersededByRecordId)
  }

  datatype Transition = ToSuperseded(successor: string) | ToTombstoned(at: string, reason: string)

  function Transit(clock: Clock, r: Record, t: Transition): Result<Record, ValidationError> {
    match t
    case ToSuperseded(successor) => Supersede(clock, r, successor)
    case ToTombstoned(at, reason) => Bury(clock, r, at, reason)
  }

  function TransitAll(clock: Clock, r: Record, ts: seq<Transition>): Result<Record, ValidationError>
    decreases |ts|
  {
    if ts == [] then Ok(r)
    else
      var next :- Transit(clock, r, ts[0]);
      TransitAll(clock, next, ts[1..])
  }

  lemma TransitSteps(clock: Clock, r: Record, t: Transition)
    requires clock.Sane() && Valid(clock, r)
    ensures Transit(clock, r, t).Ok? ==> StepsTo(clock, r, Transit(clock, r, t).value)
  {
    match t
    case ToSuperseded(successor) => SupersedeSucceedsExactly(clock, r, successor);
    case ToTombstoned(at, reason) => BurySucceedsExactly(clock, r, at, reason);
  }

  /** The envelope that a record was imported from. */
  ghost predicate Carries(r: Record, e: Envelope) {
    && e == Envelope(SummaryOnlySessionContextEnvelope, r.provenance.requestId, r.provenance.runId,
                     r.provenance.capturedAtUtc, r.sessionContext)
  }

  lemma ImportCarries(clock: Clock, e: Envelope, options: ImportOptions)
    ensures Import(clock, e, options).Ok? ==>
      Carries(Import(clock, e, options).value, e) && Valid(clock, Import(clock, e, options).value)
  {
    hide ValidateKeys, ValidateContext, FromComponents, ValidateProvenance, ValidateLifecycle;
  }

  lemma CarriedExports(clock: Clock, r: Record, e: Envelope)
    requires Valid(clock, r) && Carries(r, e)
    ensures Export(clock, r) == Ok(e)
  {
    hide ValidateKeys, ValidateContext, ValidateLifecycle;
  }

  lemma {:induction false} TransitAllKeeps(clock: Clock, r: Record, e: Envelope, ts: seq<Transition>)
    requires clock.Sane() && Valid(clock, r) && Carries(r, e)
    ensures TransitAll(clock, r, ts).Ok? ==>
      Valid(clock, TransitAll(clock, r, ts).value) && Carries(TransitAll(clock, r, ts).value, e)
      && |ts| + r.localLifecycle.state.Stage() <= TransitAll(clock, r, ts).value.localLifecycle.state.Stage()
    decreases |ts|
  {
    hide Valid, Transit;
    if ts != [] && Transit(clock, r, ts[0]).Ok? {
      TransitSteps(clock, r, ts[0]);
      TransitAllKeeps(clock, Transit(clock, r, ts[0]).value, e, ts[1..]);
    }
  }

  /** Exporting after import and any transitions gives back the envelope; at most two transitions ever succeed. */
  lemma ExportRoundTrip(clock: Clock, e: Envelope, options: ImportOptions, ts: seq<Transition>)
    requires clock.Sane() && Import(clock, e, options).Ok?
    requires TransitAll(clock, Import(clock, e, options).value, ts).Ok?
    ensures Export(clock, TransitAll(clock, Import(clock, e, options).value, ts).value) == Ok(e)
    ensures |ts| <= 2
  {
    hide Import, TransitAll, Export, Valid;
    ImportCarries(clock, e, options);
    TransitAllKeeps(clock, Import(clock, e, options).value, e, ts);
    CarriedExports(clock, TransitAll(clock, Import(clock, e, options).value, ts).value, e);
  }
}
