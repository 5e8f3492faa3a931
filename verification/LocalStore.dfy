/** The single-writer artifact store (plugins/memory/src/local_store.rs). */
module LocalStore {
  import opened Wrappers
  import opened Artifacts
  import opened FileNames

  /** The artifacts directory: file name to record. */
  type Files = map<string, Record>

  datatype QueryOptions = QueryOptions(includeSuperseded: bool, includeTombstoned: bool) {
    predicate IncludesState(state: LifecycleState) {
      match state
      case Active => true
      case Superseded => includeSuperseded
      case Tombstoned => includeTombstoned
    }
  }

  datatype StoreError =
    | RootNotInitialized
    | ConcurrentWriterRejected
    | RecordNotFound(id: string)
    | RecordExcludedByLifecycle(id: string, state: LifecycleState)
    | RecordIdConflict(id: string)
    | SelfSupersede(id: string)
    | SuccessorRecordNotFound(id: string)
    | MemoryValidation(error: ValidationError)
    | LockWriteFailed

  type StoreResult = Result<Record, StoreError>

  /** What a writer asks for. */
  datatype Op =
    | ImportOp(envelope: Envelope, options: ImportOptions)
    | SupersedeOp(id: string, successor: string)
    | TombstoneOp(id: string, at: string, reason: string)

  function Lift(r: Result<Record, ValidationError>): StoreResult {
    match r
    case Ok(record) => Ok(record)
    case Err(e) => Err(MemoryValidation(e))
  }

  /** What the operation decides while it holds the lock, from the files it reads; nothing is written yet. */
  function Decide(clock: Clock, files: Files, op: Op): StoreResult {
    match op
    case ImportOp(envelope, options) =>
      var record :- Lift(Import(clock, envelope, options));
      var name := ArtifactFileName(record.recordId);
      if name in files && files[name] != record then Err(RecordIdConflict(record.recordId)) else Ok(record)
    case SupersedeOp(id, successor) =>
      if ArtifactFileName(successor) !in files then Err(SuccessorRecordNotFound(successor))
      else if ArtifactFileName(id) !in files then Err(RecordNotFound(id))
      else Lift(Supersede(clock, files[ArtifactFileName(id)], successor))
    case TombstoneOp(id, at, reason) =>
      if ArtifactFileName(id) !in files then Err(RecordNotFound(id))
      else Lift(Bury(clock, files[ArtifactFileName(id)], at, reason))
  }

  /** The file that an operation writes when it decides on a record. */
  function Target(op: Op): string {
    match op
    case ImportOp(_, options) => ArtifactFileName(options.recordId)
    case SupersedeOp(id, _) => ArtifactFileName(id)
    case TombstoneOp(id, _, _) => ArtifactFileName(id)
  }

  /** Whether the operation writes at all: importing a record that is already there does not. */
  predicate Writes(clock: Clock, files: Files, op: Op) {
    Decide(clock, files, op).Ok? && !(op.ImportOp? && Target(op) in files)
  }

  /** The files after the operation. */
  function Perform(clock: Clock, files: Files, op: Op): Files {
    if Writes(clock, files, op) then files[Target(op) := Decide(clock, files, op).value] else files
  }

  /** Every file holds a valid record, under the name of its id. */
  ghost predicate Consistent(clock: Clock, files: Files) {
    forall name :: name in files ==> Valid(clock, files[name]) && name == ArtifactFileName(files[name].recordId)
  }

  class LocalMemoryStore {
    const clock: Clock
    var initialized: bool
    var locked: bool
    var files: Files

    ghost predicate Ready()
      reads this
    {
      clock.Sane() && Consistent(clock, files)
    }

    constructor (clock: Clock)
      requires clock.Sane()
      ensures Ready() && this.clock == clock && !initialized && !locked && files == map[]
    {
      this.clock, initialized, locked, files := clock, false, false, map[];
    }

    method Init() returns (r: Result<(), StoreError>)
      requires Ready()
      modifies this
      ensures Ready() && files == old(files) && locked == old(locked)
      ensures r.Err? <==> old(locked)
      ensures initialized == (old(initialized) || !old(locked))
    {
      if locked {
        return Err(ConcurrentWriterRejected);
      }
      locked := true;
      initialized := true;
      locked := false;
      r := Ok(());
    }

    method ImportSummaryOnlyEnvelope(envelope: Envelope, options: ImportOptions) returns (r: StoreResult)
      requires Ready()
      modifies this`locked, this`files
      ensures Ready() && locked == old(locked)
      ensures r == Answer(old(initialized), old(locked), old(files), ImportOp(envelope, options))
      ensures files == After(old(initialized), old(locked), old(files), ImportOp(envelope, options))
      ensures !old(initialized) ==> r == Err(RootNotInitialized) && files == old(files)
      ensures old(initialized) && old(locked) ==> r == Err(ConcurrentWriterRejected) && files == old(files)
      ensures r.Ok? ==> ArtifactFileName(options.recordId) in files && files[ArtifactFileName(options.recordId)] == r.value
    {
      hide Import, Valid, Clock.Sane, Consistent, ArtifactFileName;
      PerformKeepsConsistent(clock, files, ImportOp(envelope, options));
      if !initialized {
        return Err(RootNotInitialized);
      }
      if locked {
        return Err(ConcurrentWriterRejected);
      }
      locked := true;
      var record := Import(clock, envelope, options);
      if record.Err? {
        r := Err(MemoryValidation(record.error));
      } else {
        var path := ArtifactFileName(record.value.recordId);
        ImportKeepsId(clock, envelope, options);
        if path in files {
          if files[path] != record.value {
            r := Err(RecordIdConflict(record.value.recordId));
          } else {
            r := Ok(files[path]);
          }
        } else {
          files := files[path := record.value];
          r := Ok(record.value);
        }
      }
      locked := false;
    }

    method SupersedeRecord(id: string, successor: string) returns (r: StoreResult)
      requires Ready()
      modifies this`locked, this`files
      ensures Ready() && locked == old(locked)
      ensures r == Answer(old(initialized), old(locked), old(files), SupersedeOp(id, successor))
      ensures files == After(old(initialized), old(locked), old(files), SupersedeOp(id, successor))
      ensures !old(initialized) ==> r == Err(RootNotInitialized) && files == old(files)
      ensures old(initialized) && id == successor ==> r == Err(SelfSupersede(id)) && files == old(files)
      ensures old(initialized) && id != successor && old(locked) ==> r == Err(ConcurrentWriterRejected) && files == old(files)
      ensures r.Ok? ==> ArtifactFileName(id) in files && files[ArtifactFileName(id)] == r.value
    {
      hide Supersede, Valid, Clock.Sane, Consistent, ArtifactFileName;
      PerformKeepsConsistent(clock, files, SupersedeOp(id, successor));
      if !initialized {
        return Err(RootNotInitialized);
      }
      if id == successor {
        return Err(SelfSupersede(id));
      }
      if locked {
        return Err(ConcurrentWriterRejected);
      }
      locked := true;
      var path := ArtifactFileName(id);
      if ArtifactFileName(successor) !in files {
        r := Err(SuccessorRecordNotFound(successor));
      } else if path !in files {
        r := Err(RecordNotFound(id));
      } else {
        var record := Supersede(clock, files[path], successor);
        if record.Err? {
          r := Err(MemoryValidation(record.error));
        } else {
          files := files[path := record.value];
          r := Ok(record.value);
        }
      }
      locked := false;
    }

    method TombstoneRecord(id: string, at: string, reason: string) returns (r: StoreResult)
      requires Ready()
      modifies this`locked, this`files
      ensures Ready() && locked == old(locked)
      ensures r == Answer(old(initialized), old(locked), old(files), TombstoneOp(id, at, reason))
      ensures files == After(old(initialized), old(locked), old(files), TombstoneOp(id, at, reason))
      ensures !old(initialized) ==> r == Err(RootNotInitialized) && files == old(files)
      ensures old(initialized) && old(locked) ==> r == Err(ConcurrentWriterRejected) && files == old(files)
      ensures r.Ok? ==> ArtifactFileName(id) in files && files[ArtifactFileName(id)] == r.value
    {
      hide Bury, Valid, Clock.Sane, Consistent, ArtifactFileName;
      PerformKeepsConsistent(clock, files, TombstoneOp(id, at, reason));
      if !initialized {
        return Err(RootNotInitialized);
      }
      if locked {
        return Err(ConcurrentWriterRejected);
      }
      locked := true;
      var path := ArtifactFileName(id);
      if path !in files {
        r := Err(RecordNotFound(id));
      } else {
        var record := Bury(clock, files[path], at, reason);
        if record.Err? {
          r := Err(MemoryValidation(record.error));
        } else {
          files := files[path := record.value];
          r := Ok(record.value);
        }
      }
      locked := false;
    }

    /** The answer of a call, by what it meets first: no store, a self-supersede, a held lock, then the decision. */
    function Answer(initialized: bool, locked: bool, files: Files, op: Op): StoreResult {
      if !initialized then Err(RootNotInitialized)
      else if op.SupersedeOp? && op.id == op.successor then Err(SelfSupersede(op.id))
      else if locked then Err(ConcurrentWriterRejected)
      else Decide(clock, files, op)
    }

    function After(initialized: bool, locked: bool, files: Files, op: Op): Files {
      if !initialized || (op.SupersedeOp? && op.id == op.successor) || locked then files
      else Perform(clock, files, op)
    }

    method ShowRecord(id: string, options: QueryOptions) returns (r: StoreResult)
      requires Ready()
      ensures r == if !initialized then Err(RootNotInitialized) else Show(files, id, options)
    {
      if !initialized {
        return Err(RootNotInitialized);
      }
      var path := ArtifactFileName(id);
      if path !in files {
        return Err(RecordNotFound(id));
      }
      var record := files[path];
      if !options.IncludesState(record.localLifecycle.state) {
        return Err(RecordExcludedByLifecycle(record.recordId, record.localLifecycle.state));
      }
      r := Ok(record);
    }
  }

  function Show(files: Files, id: string, options: QueryOptions): StoreResult {
    var path := ArtifactFileName(id);
    if path !in files then Err(RecordNotFound(id))
    else if !options.IncludesState(files[path].localLifecycle.state) then
      Err(RecordExcludedByLifecycle(files[path].recordId, files[path].localLifecycle.state))
    else Ok(files[path])
  }

  // ----- what one operation keeps

  lemma ImportKeepsId(clock: Clock, envelope: Envelope, options: ImportOptions)
    requires clock.Sane()
    ensures Import(clock, envelope, options).Ok? ==>
      var r := Import(clock, envelope, options).value;
      r.recordId == options.recordId && Valid(clock, r) && r.localLifecycle.state == Active
  {
    ImportSucceedsExactly(clock, envelope, options);
  }

  /** Where an operation writes a file that exists, the record steps forward; a new file holds an active record. */
  lemma WriteSteps(clock: Clock, files: Files, op: Op)
    requires clock.Sane() && Consistent(clock, files) && Writes(clock, files, op)
    ensures var next := Decide(clock, files, op).value;
      && Valid(clock, next) && Target(op) == ArtifactFileName(next.recordId)
      && (Target(op) in files ==> StepsTo(clock, files[Target(op)], next))
      && (Target(op) !in files ==> op.ImportOp? && next.localLifecycle.state == Active)
  {
    hide Import, Supersede, Bury, Valid, Clock.Sane;
    match op
    case ImportOp(envelope, options) => ImportKeepsId(clock, envelope, options);
    case SupersedeOp(id, successor) => SupersedeSucceedsExactly(clock, files[ArtifactFileName(id)], successor);
    case TombstoneOp(id, at, reason) => BurySucceedsExactly(clock, files[ArtifactFileName(id)], at, reason);
  }

  lemma PerformKeepsConsistent(clock: Clock, files: Files, op: Op)
    requires clock.Sane() && Consistent(clock, files)
    ensures Consistent(clock, Perform(clock, files, op))
  {
    hide Decide, Valid, Clock.Sane;
    if Writes(clock, files, op) {
      WriteSteps(clock, files, op);
    }
  }

  // ----- what an answer says about the store

  /** Whatever an operation answers Ok is what the store then holds. */
  lemma AnswerIsStored(clock: Clock, files: Files, op: Op)
    requires clock.Sane()
    ensures Decide(clock, files, op).Ok? ==>
      Target(op) in Perform(clock, files, op) && Perform(clock, files, op)[Target(op)] == Decide(clock, files, op).value
  {
    hide Import, ArtifactFileName, Clock.Sane, Decide;
    if op.ImportOp? {
      ImportDecision(clock, files, op.envelope, op.options);
    }
  }

  lemma ImportDecision(clock: Clock, files: Files, envelope: Envelope, options: ImportOptions)
    requires clock.Sane()
    ensures var r, name := Decide(clock, files, ImportOp(envelope, options)), ArtifactFileName(options.recordId);
      r.Ok? && name in files ==> r.value == files[name]
  {
    hide Import, ArtifactFileName, Clock.Sane;
    ImportKeepsId(clock, envelope, options);
  }

  /**
   * Importing under an id that the store holds succeeds if and only if the imported record is the stored one; a
   * different record is refused with that id, and the stored one stays.
   */
  lemma ImportOverExisting(clock: Clock, files: Files, envelope: Envelope, options: ImportOptions)
    requires clock.Sane() && ArtifactFileName(options.recordId) in files
    ensures var op, stored, record := ImportOp(envelope, options), files[ArtifactFileName(options.recordId)], Import(clock, envelope, options);
      && Perform(clock, files, op) == files
      && (record.Err? ==> Decide(clock, files, op) == Err(MemoryValidation(record.error)))
      && (record == Ok(stored) ==> Decide(clock, files, op) == Ok(stored))
      && (record.Ok? && record.value != stored ==> Decide(clock, files, op) == Err(RecordIdConflict(options.recordId)))
  {
    hide Import, ArtifactFileName, Clock.Sane;
    ImportKeepsId(clock, envelope, options);
  }

  /** Superseding succeeds if and only if both records are there, the first is active and the successor's id is bounded. */
  lemma SupersedeAnswers(clock: Clock, files: Files, id: string, successor: string)
    requires clock.Sane() && Consistent(clock, files)
    ensures var r, name := Decide(clock, files, SupersedeOp(id, successor)), ArtifactFileName(id);
      && (r.Ok? <==>
            && ArtifactFileName(successor) in files && name in files
            && files[name].localLifecycle.state == Active && 0 < |successor| <= 128)
      && (ArtifactFileName(successor) !in files ==> r == Err(SuccessorRecordNotFound(successor)))
      && (ArtifactFileName(successor) in files && name !in files ==> r == Err(RecordNotFound(id)))
      && (ArtifactFileName(successor) in files && name in files && r.Err? ==>
            r == Err(MemoryValidation(SupersedeRefusal(files[name].localLifecycle.state, successor))))
      && (r.Ok? ==> r.value.localLifecycle == Lifecycle(Superseded, Some(successor), None))
  {
    hide Supersede, ArtifactFileName, Clock.Sane, Valid;
    if ArtifactFileName(id) in files {
      SupersedeSucceedsExactly(clock, files[ArtifactFileName(id)], successor);
      SupersedeRefuses(clock, files[ArtifactFileName(id)], successor);
    }
  }

  /** Burying succeeds if and only if the record is there without a tombstone, the time parses and the reason is bounded. */
  lemma TombstoneAnswers(clock: Clock, files: Files, id: string, at: string, reason: string)
    requires clock.Sane() && Consistent(clock, files)
    ensures var r, name := Decide(clock, files, TombstoneOp(id, at, reason)), ArtifactFileName(id);
      && (r.Ok? <==> name in files && files[name].localLifecycle.state != Tombstoned && clock.parses(at) && 0 < |reason| <= 280)
      && (name !in files ==> r == Err(RecordNotFound(id)))
      && (name in files && r.Err? ==> r == Err(MemoryValidation(BuryRefusal(clock, files[name].localLifecycle.state, at, reason))))
      && (r.Ok? ==>
            var successor := files[name].localLifecycle.supersededByRecordId;
            r.value.localLifecycle == Lifecycle(Tombstoned, successor, Some(Tombstone(at, reason))))
  {
    hide Bury, ArtifactFileName, Clock.Sane, Valid;
    if ArtifactFileName(id) in files {
      BurySucceedsExactly(clock, files[ArtifactFileName(id)], at, reason);
      BuryRefuses(clock, files[ArtifactFileName(id)], at, reason);
    }
  }

  /** Which records a caller sees: active ones, and superseded or buried ones where asked for. */
  lemma ShowAnswers(files: Files, id: string, superseded: bool, tombstoned: bool)
    ensures var r, name := Show(files, id, QueryOptions(superseded, tombstoned)), ArtifactFileName(id);
      && (name !in files ==> r == Err(RecordNotFound(id)))
      && (name in files ==>
            var record := files[name];
            var state := record.localLifecycle.state;
            if state == Active || (state == Superseded && superseded) || (state == Tombstoned && tombstoned) then r == Ok(record)
            else r == Err(RecordExcludedByLifecycle(record.recordId, state)))
  {
    hide ArtifactFileName;
  }

  // ----- whole runs

  function RunOps(clock: Clock, files: Files, ops: seq<Op>): Files
    decreases |ops|
  {
    if ops == [] then files else RunOps(clock, Perform(clock, files, ops[0]), ops[1..])
  }

  /** How often a run writes the file `name`. */
  function WriteCount(clock: Clock, files: Files, ops: seq<Op>, name: string): nat
    decreases |ops|
  {
    if ops == [] then 0
    else (if Writes(clock, files, ops[0]) && Target(ops[0]) == name then 1 else 0)
         + WriteCount(clock, Perform(clock, files, ops[0]), ops[1..], name)
  }

  /** Each further operation counts if it writes the file. */
  lemma {:induction false} WriteCountSnoc(clock: Clock, files: Files, ops: seq<Op>, op: Op, name: string)
    ensures WriteCount(clock, files, [], name) == 0
    ensures var before := RunOps(clock, files, ops);
      WriteCount(clock, files, ops + [op], name) == WriteCount(clock, files, ops, name)
        + if Decide(clock, before, op).Ok? && !(op.ImportOp? && Target(op) in before) && Target(op) == name then 1 else 0
    decreases |ops|
  {
    hide Decide, Perform;
    if ops == [] {
      assert ([] + [op])[1..] == [];
      NothingCounted(clock, Perform(clock, files, op), name);
    } else {
      assert (ops + [op])[1..] == ops[1..] + [op];
      WriteCountSnoc(clock, Perform(clock, files, ops[0]), ops[1..], op, name);
    }
  }

  lemma NothingCounted(clock: Clock, files: Files, name: string)
    ensures WriteCount(clock, files, [], name) == 0
  {
  }

  /** later is what became of earlier: same payload and provenance, lifecycle no earlier, successor kept. */
  ghost predicate Descends(earlier: Record, later: Record) {
    && later == earlier.(localLifecycle := later.localLifecycle, sortKeys := later.sortKeys)
    && later.sortKeys.scopeCapturedAtRecordId == earlier.sortKeys.scopeCapturedAtRecordId
    && earlier.localLifecycle.state.Stage() <= later.localLifecycle.state.Stage()
    && (earlier.localLifecycle.state == later.localLifecycle.state ==> earlier == later)
    && (earlier.localLifecycle.supersededByRecordId.Some? ==>
          later.localLifecycle.supersededByRecordId == earlier.localLifecycle.supersededByRecordId)
  }

  /** A set supersededBy names a different record, and that record is in the store. */
  ghost predicate SuccessorsPresent(files: Files) {
    forall name :: name in files && files[name].localLifecycle.supersededByRecordId.Some? ==>
      var s := files[name].localLifecycle.supersededByRecordId.value;
      s != files[name].recordId && ArtifactFileName(s) in files
  }

  lemma PerformDescends(clock: Clock, files: Files, op: Op, name: string)
    requires clock.Sane() && Consistent(clock, files) && name in files
    ensures name in Perform(clock, files, op) && Descends(files[name], Perform(clock, files, op)[name])
    ensures files[name].localLifecycle.state.Stage()
              + (if Writes(clock, files, op) && Target(op) == name then 1 else 0)
            <= Perform(clock, files, op)[name].localLifecycle.state.Stage()
  {
    hide Decide, Valid, Clock.Sane;
    if Writes(clock, files, op) {
      WriteSteps(clock, files, op);
    }
  }

  lemma PerformKeepsSuccessors(clock: Clock, files: Files, op: Op)
    requires clock.Sane() && Consistent(clock, files) && SuccessorsPresent(files)
    requires op.SupersedeOp? ==> op.id != op.successor
    ensures SuccessorsPresent(Perform(clock, files, op))
  {
    hide Decide, Valid, Clock.Sane, ArtifactFileName;
    if Writes(clock, files, op) {
      WrittenSuccessor(clock, files, op);
    }
  }

  lemma WrittenSuccessor(clock: Clock, files: Files, op: Op)
    requires clock.Sane() && Consistent(clock, files) && SuccessorsPresent(files)
    requires op.SupersedeOp? ==> op.id != op.successor
    requires Writes(clock, files, op)
    ensures var next := Decide(clock, files, op).value;
      next.localLifecycle.supersededByRecordId.Some? ==>
        var s := next.localLifecycle.supersededByRecordId.value;
        s != next.recordId && ArtifactFileName(s) in files
  {
    hide Supersede, Bury, Import, Valid, Clock.Sane, ArtifactFileName, StepsTo;
    match op
    case ImportOp(envelope, options) => ImportIsActive(clock, envelope, options);
    case SupersedeOp(id, successor) =>
      var before := files[ArtifactFileName(id)];
      SupersedeSucceedsExactly(clock, before, successor);
      ArtifactFileNameInjective(id, before.recordId);
      StepKeepsId(clock, before, Supersede(clock, before, successor).value);
    case TombstoneOp(id, at, reason) =>
      var before := files[ArtifactFileName(id)];
      BurySucceedsExactly(clock, before, at, reason);
      StepKeepsId(clock, before, Bury(clock, before, at, reason).value);
  }

  lemma StepKeepsId(clock: Clock, r: Record, next: Record)
    requires StepsTo(clock, r, next)
    ensures next.recordId == r.recordId
  {
  }

  lemma ImportIsActive(clock: Clock, envelope: Envelope, options: ImportOptions)
    requires clock.Sane()
    ensures Import(clock, envelope, options).Ok? ==>
      Import(clock, envelope, options).value.localLifecycle.supersededByRecordId.None?
  {
    ImportKeepsId(clock, envelope, options);
  }

  /** The calls that reach the lock: no self-supersede. */
  ghost predicate Admitted(ops: seq<Op>) {
    forall i :: 0 <= i < |ops| && ops[i].SupersedeOp? ==> ops[i].id != ops[i].successor
  }

  /** Over every run: consistency, successors, and each record descends from what it was. */
  lemma {:induction false} RunKeepsEverything(clock: Clock, files: Files, ops: seq<Op>)
    requires clock.Sane() && Consistent(clock, files) && SuccessorsPresent(files) && Admitted(ops)
    ensures var later := RunOps(clock, files, ops);
      && Consistent(clock, later) && SuccessorsPresent(later)
      && (forall name :: name in files ==> name in later && Descends(files[name], later[name]))
    decreases |ops|
  {
    hide Perform, Valid, Clock.Sane, Consistent, SuccessorsPresent;
    if ops != [] {
      var next := Perform(clock, files, ops[0]);
      PerformKeepsConsistent(clock, files, ops[0]);
      PerformKeepsSuccessors(clock, files, ops[0]);
      RunKeepsEverything(clock, next, ops[1..]);
      var later := RunOps(clock, files, ops);
      forall name | name in files ensures name in later && Descends(files[name], later[name]) {
        PerformDescends(clock, files, ops[0], name);
      }
    }
  }

  /** Each artifact file is written at most three times, whatever the run: its writes are bounded by its stage. */
  lemma {:induction false} WritesAreBounded(clock: Clock, files: Files, ops: seq<Op>, name: string)
    requires clock.Sane() && Consistent(clock, files)
    ensures var later := RunOps(clock, files, ops);
      var writes := WriteCount(clock, files, ops, name);
      && (name in files ==> name in later)
      && (name in files ==>
            writes + files[name].localLifecycle.state.Stage() <= later[name].localLifecycle.state.Stage())
      && (name !in files && name in later ==> writes <= later[name].localLifecycle.state.Stage())
      && writes <= 3
    decreases |ops|
  {
    hide Decide, Valid, Clock.Sane, Consistent;
    if ops != [] {
      var next := Perform(clock, files, ops[0]);
      PerformKeepsConsistent(clock, files, ops[0]);
      WritesAreBounded(clock, next, ops[1..], name);
      if name in files {
        PerformDescends(clock, files, ops[0], name);
      } else if Writes(clock, files, ops[0]) && Target(ops[0]) == name {
        WriteSteps(clock, files, ops[0]);
      }
    }
  }
}
