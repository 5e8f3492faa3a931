/**
 * Any number of writers over one store directory, interleaved at every access to the file system
 * (plugins/memory/src/local_store.rs: create_new lock file, reads, one write, removal on drop).
 */
module Writers {
  import opened Wrappers
  import opened Artifacts
  import opened FileNames
  import opened LocalStore

  type Writer = nat

  datatype Pc =
    | Idle
    | Calling(op: Op)
    | Holding(op: Op, seen: map<string, Option<Record>>)
    | Decided(op: Op, answer: StoreResult, writes: bool)
    | Finishing(op: Op, answer: StoreResult)
    | Returned(op: Op, answer: StoreResult)

  /** `served` and `answers` record the operations in lock-acquisition order; no writer looks at them. */
  datatype State = State(
    files: Files,
    lockFile: bool,
    pcs: map<Writer, Pc>,
    served: seq<Op>,
    answers: seq<StoreResult>)

  datatype Event =
    | Call(w: Writer, op: Op)
    | Reject(w: Writer)
    | Acquire(w: Writer)
    | AcquireAndFail(w: Writer)
    | Look(w: Writer, name: string)
    | Conclude(w: Writer)
    | Write(w: Writer)
    | Release(w: Writer)

  function PcOf(s: State, w: Writer): Pc {
    if w in s.pcs then s.pcs[w] else Idle
  }

  /** Between creating the lock file and removing it. */
  predicate InLock(pc: Pc) {
    pc.Holding? || pc.Decided? || pc.Finishing?
  }

  /** The files that the operation reads. */
  function Needed(op: Op): set<string> {
    if op.SupersedeOp? then {Target(op), ArtifactFileName(op.successor)} else {Target(op)}
  }

  /** The directory as far as the writer has looked. */
  function Reconstruct(seen: map<string, Option<Record>>): Files {
    map name | name in seen && seen[name].Some? :: seen[name].value
  }

  function Goto(s: State, w: Writer, pc: Pc): State {
    s.(pcs := s.pcs[w := pc])
  }

  ghost predicate Step(clock: Clock, s: State, e: Event, t: State) {
    var pc := PcOf(s, e.w);
    match e
    case Call(w, op) =>
      && (pc.Idle? || pc.Returned?)
      && t == Goto(s, w, if op.SupersedeOp? && op.id == op.successor then Returned(op, Err(SelfSupersede(op.id))) else Calling(op))
    case Reject(w) =>
      pc.Calling? && s.lockFile && t == Goto(s, w, Returned(pc.op, Err(ConcurrentWriterRejected)))
    case Acquire(w) =>
      && pc.Calling? && !s.lockFile
      && t == Goto(s, w, Holding(pc.op, map[])).(lockFile := true, served := s.served + [pc.op])
    case AcquireAndFail(w) =>
      // the lock file is created, but writing its text fails: no guard exists, and the file stays
      && pc.Calling? && !s.lockFile
      && t == Goto(s, w, Returned(pc.op, Err(LockWriteFailed))).(lockFile := true)
    case Look(w, name) =>
      && pc.Holding?
      && t == Goto(s, w, pc.(seen := pc.seen[name := if name in s.files then Some(s.files[name]) else None]))
    case Conclude(w) =>
      && pc.Holding? && Needed(pc.op) <= pc.seen.Keys
      && var seen := Reconstruct(pc.seen);
         var answer := Decide(clock, seen, pc.op);
         t == Goto(s, w, Decided(pc.op, answer, Writes(clock, seen, pc.op))).(answers := s.answers + [answer])
    case Write(w) =>
      && pc.Decided?
      && t == Goto(s, w, Finishing(pc.op, pc.answer)).(files :=
           if pc.writes && pc.answer.Ok? then s.files[Target(pc.op) := pc.answer.value] else s.files)
    case Release(w) =>
      pc.Finishing? && t == Goto(s, w, Returned(pc.op, pc.answer)).(lockFile := false)
  }

  /** What a decision depends on. */
  lemma DecideDependsOnNeeded(clock: Clock, f: Files, g: Files, op: Op)
    requires clock.Sane()
    requires forall name :: name in Needed(op) ==> (name in f <==> name in g) && (name in f ==> f[name] == g[name])
    ensures Decide(clock, f, op) == Decide(clock, g, op) && Writes(clock, f, op) == Writes(clock, g, op)
  {
    hide Import, Supersede, Bury, ArtifactFileName, Clock.Sane;
    assert Target(op) in Needed(op);
    match op
    case ImportOp(envelope, options) => ImportKeepsId(clock, envelope, options);
    case SupersedeOp(_, successor) => assert ArtifactFileName(successor) in Needed(op);
    case TombstoneOp(_, _, _) =>
  }

  // ----- the invariant

  /** What is true of the writer in the lock, by where it is. */
  ghost predicate HolderInv(clock: Clock, start: Files, s: State, pc: Pc) {
    var n := |s.served| - 1;
    && s.lockFile && n >= 0
    && InLock(pc) && s.served[n] == pc.op
    && match pc
       case Holding(op, seen) =>
         && |s.answers| == n && s.files == RunOps(clock, start, s.served[..n])
         && forall name :: name in seen ==> seen[name] == if name in s.files then Some(s.files[name]) else None
       case Decided(op, answer, writes) =>
         && |s.answers| == n + 1 && s.files == RunOps(clock, start, s.served[..n])
         && answer == Decide(clock, s.files, op) && writes == Writes(clock, s.files, op) && s.answers[n] == answer
       case Finishing(op, answer) =>
         && |s.answers| == n + 1 && s.files == RunOps(clock, start, s.served) && s.answers[n] == answer
       case _ => false
  }

  ghost predicate AtMostOneInLock(s: State) {
    forall v, w :: InLock(PcOf(s, v)) && InLock(PcOf(s, w)) ==> v == w
  }

  /** Every answer given so far is that of a serial run of the operations before it. */
  ghost predicate AnswersAreSerial(clock: Clock, start: Files, s: State) {
    && |s.answers| <= |s.served|
    && forall i :: 0 <= i < |s.answers| ==> s.answers[i] == Decide(clock, RunOps(clock, start, s.served[..i]), s.served[i])
  }

  ghost predicate NobodyInLock(s: State) {
    forall w :: !InLock(PcOf(s, w))
  }

  ghost predicate CallsAdmitted(s: State) {
    && Admitted(s.served)
    && forall w :: PcOf(s, w).Calling? ==> Admitted([PcOf(s, w).op])
  }

  ghost predicate Inv(clock: Clock, start: Files, s: State) {
    && AtMostOneInLock(s)
    && (forall w :: InLock(PcOf(s, w)) ==> HolderInv(clock, start, s, PcOf(s, w)))
    && (NobodyInLock(s) ==> |s.answers| == |s.served| && s.files == RunOps(clock, start, s.served))
    && AnswersAreSerial(clock, start, s)
    && CallsAdmitted(s)
  }

  lemma {:induction false} RunOpsSnoc(clock: Clock, files: Files, ops: seq<Op>, op: Op)
    ensures RunOps(clock, files, ops + [op]) == Perform(clock, RunOps(clock, files, ops), op)
    decreases |ops|
  {
    hide Perform;
    if ops == [] {
      assert ([] + [op])[1..] == [];
    } else {
      assert (ops + [op])[1..] == ops[1..] + [op];
      RunOpsSnoc(clock, Perform(clock, files, ops[0]), ops[1..], op);
    }
  }

  ghost predicate Initial(start: Files, s: State) {
    s == State(start, false, map[], [], [])
  }

  lemma InitialInv(clock: Clock, start: Files, s: State)
    requires Initial(start, s)
    ensures Inv(clock, start, s)
  {
  }

  lemma StepKeepsInv(clock: Clock, start: Files, s: State, e: Event, t: State)
    requires clock.Sane() && Inv(clock, start, s) && Step(clock, s, e, t)
    ensures Inv(clock, start, t)
  {
    hide Decide, Writes, RunOps, Clock.Sane, HolderInv, AnswersAreSerial, CallsAdmitted;
    var pc := PcOf(s, e.w);
    assert forall v :: v != e.w ==> PcOf(t, v) == PcOf(s, v);
    match e
    case Call(w, op) => OutsideStep(clock, start, s, e, t);
    case Reject(w) => OutsideStep(clock, start, s, e, t);
    case Acquire(w) => AcquireStep(clock, start, s, w, t);
    case AcquireAndFail(w) => OutsideStep(clock, start, s, e, t);
    case Look(w, name) => LookStep(clock, start, s, w, name, t);
    case Conclude(w) => ConcludeStep(clock, start, s, w, t);
    case Write(w) => WriteStep(clock, start, s, w, t);
    case Release(w) => ReleaseStep(clock, start, s, w, t);
  }

  lemma OutsideStep(clock: Clock, start: Files, s: State, e: Event, t: State)
    requires Inv(clock, start, s) && Step(clock, s, e, t) && (e.Call? || e.Reject? || e.AcquireAndFail?)
    ensures Inv(clock, start, t)
  {
    hide Decide, Writes, RunOps;
    assert forall v :: v != e.w ==> PcOf(t, v) == PcOf(s, v);
    assert !InLock(PcOf(t, e.w)) && !InLock(PcOf(s, e.w));
    assert forall w :: InLock(PcOf(t, w)) <==> InLock(PcOf(s, w));
    forall w | InLock(PcOf(t, w)) ensures HolderInv(clock, start, t, PcOf(t, w)) {
      assert HolderInv(clock, start, s, PcOf(s, w));
    }
    assert NobodyInLock(t) ==> NobodyInLock(s);
  }

  lemma HoldersNeedTheLock(clock: Clock, start: Files, s: State)
    requires Inv(clock, start, s)
    ensures !s.lockFile ==> NobodyInLock(s)
  {
    hide Decide, Writes, RunOps, AtMostOneInLock, AnswersAreSerial, CallsAdmitted;
    if w :| InLock(PcOf(s, w)) {
      assert HolderInv(clock, start, s, PcOf(s, w));
    }
  }

  lemma AcquireStep(clock: Clock, start: Files, s: State, w: Writer, t: State)
    requires Inv(clock, start, s) && Step(clock, s, Acquire(w), t)
    ensures Inv(clock, start, t)
  {
    hide Decide, Writes, RunOps;
    assert forall v :: v != w ==> PcOf(t, v) == PcOf(s, v);
    HoldersNeedTheLock(clock, start, s);
    var n := |s.served|;
    assert t.served[..n] == s.served;
    assert forall i :: 0 <= i < |s.answers| ==> t.served[..i] == s.served[..i];
    assert InLock(PcOf(t, w));
  }

  /** A writer that moves on inside the lock disturbs nobody else. */
  lemma StaysInside(clock: Clock, start: Files, s: State, w: Writer, t: State)
    requires Inv(clock, start, s) && InLock(PcOf(s, w)) && InLock(PcOf(t, w))
    requires t.pcs == s.pcs[w := PcOf(t, w)] && t.served == s.served
    requires HolderInv(clock, start, t, PcOf(t, w)) && AnswersAreSerial(clock, start, t)
    ensures Inv(clock, start, t)
  {
    hide Decide, Writes, RunOps, HolderInv, AnswersAreSerial;
    assert forall v :: v != w ==> PcOf(t, v) == PcOf(s, v);
    assert forall v :: InLock(PcOf(t, v)) ==> v == w;
    assert forall v :: PcOf(t, v).Calling? ==> PcOf(s, v) == PcOf(t, v);
  }

  lemma LookStep(clock: Clock, start: Files, s: State, w: Writer, name: string, t: State)
    requires Inv(clock, start, s) && Step(clock, s, Look(w, name), t)
    ensures Inv(clock, start, t)
  {
    hide Decide, Writes, RunOps, AtMostOneInLock, CallsAdmitted;
    assert HolderInv(clock, start, s, PcOf(s, w));
    StaysInside(clock, start, s, w, t);
  }

  lemma ConcludeStep(clock: Clock, start: Files, s: State, w: Writer, t: State)
    requires clock.Sane() && Inv(clock, start, s) && Step(clock, s, Conclude(w), t)
    ensures Inv(clock, start, t)
  {
    hide Decide, Writes, RunOps, Reconstruct, Clock.Sane, AtMostOneInLock, CallsAdmitted, AnswersAreSerial;
    assert HolderInv(clock, start, s, PcOf(s, w));
    ConcludeReadsTruth(clock, s, PcOf(s, w));
    AnswerIsSerial(clock, start, s, t, PcOf(t, w).answer);
    StaysInside(clock, start, s, w, t);
  }

  lemma AnswerIsSerial(clock: Clock, start: Files, s: State, t: State, answer: StoreResult)
    requires AnswersAreSerial(clock, start, s) && t.served == s.served && t.answers == s.answers + [answer]
    requires var n := |s.served| - 1;
      n >= 0 && |s.answers| == n && answer == Decide(clock, RunOps(clock, start, s.served[..n]), s.served[n])
    ensures AnswersAreSerial(clock, start, t)
  {
    hide Decide, RunOps;
  }

  lemma WriteStep(clock: Clock, start: Files, s: State, w: Writer, t: State)
    requires Inv(clock, start, s) && Step(clock, s, Write(w), t)
    ensures Inv(clock, start, t)
  {
    hide Decide, Writes, RunOps, Perform, AtMostOneInLock, CallsAdmitted;
    var pc := PcOf(s, w);
    assert HolderInv(clock, start, s, pc);
    var n := |s.served| - 1;
    assert s.served[..n] + [s.served[n]] == s.served;
    RunOpsSnoc(clock, start, s.served[..n], s.served[n]);
    WriteIsPerform(clock, s.files, pc.op);
    StaysInside(clock, start, s, w, t);
  }

  lemma WriteIsPerform(clock: Clock, files: Files, op: Op)
    ensures Perform(clock, files, op) ==
      if Writes(clock, files, op) && Decide(clock, files, op).Ok? then files[Target(op) := Decide(clock, files, op).value] else files
  {
    hide Decide;
  }

  lemma ConcludeReadsTruth(clock: Clock, s: State, pc: Pc)
    requires clock.Sane() && pc.Holding? && Needed(pc.op) <= pc.seen.Keys
    requires forall name :: name in pc.seen ==> pc.seen[name] == if name in s.files then Some(s.files[name]) else None
    ensures Decide(clock, Reconstruct(pc.seen), pc.op) == Decide(clock, s.files, pc.op)
    ensures Writes(clock, Reconstruct(pc.seen), pc.op) == Writes(clock, s.files, pc.op)
  {
    hide Decide, Writes, Clock.Sane, Needed;
    var f := Reconstruct(pc.seen);
    forall name | name in Needed(pc.op)
      ensures (name in f <==> name in s.files) && (name in f ==> f[name] == s.files[name])
    {
      assert name in pc.seen;
    }
    DecideDependsOnNeeded(clock, f, s.files, pc.op);
  }

  lemma ReleaseStep(clock: Clock, start: Files, s: State, w: Writer, t: State)
    requires Inv(clock, start, s) && Step(clock, s, Release(w), t)
    ensures Inv(clock, start, t)
  {
    hide Decide, Writes, RunOps;
    assert forall v :: v != w ==> PcOf(t, v) == PcOf(s, v);
    assert HolderInv(clock, start, s, PcOf(s, w));
    forall v ensures !InLock(PcOf(t, v)) {
      if v != w {
        assert InLock(PcOf(s, w));
      }
    }
  }

  // ----- runs

  ghost predicate IsRun(clock: Clock, start: Files, states: seq<State>, events: seq<Event>) {
    && |states| == |events| + 1
    && Initial(start, states[0])
    && forall i :: 0 <= i < |events| ==> Step(clock, states[i], events[i], states[i + 1])
  }

  lemma {:induction false} RunInv(clock: Clock, start: Files, states: seq<State>, events: seq<Event>, k: nat)
    requires clock.Sane() && IsRun(clock, start, states, events) && k < |states|
    ensures Inv(clock, start, states[k])
  {
    hide Inv, Step, Clock.Sane;
    if k == 0 {
      InitialInv(clock, start, states[0]);
    } else {
      RunInv(clock, start, states, events, k - 1);
      StepKeepsInv(clock, start, states[k - 1], events[k - 1], states[k]);
    }
  }

  /** The operations that succeed when all are run one after another. */
  function Succeeding(clock: Clock, files: Files, ops: seq<Op>): seq<Op>
    decreases |ops|
  {
    if ops == [] then []
    else (if Decide(clock, files, ops[0]).Ok? then [ops[0]] else [])
         + Succeeding(clock, Perform(clock, files, ops[0]), ops[1..])
  }

  lemma {:induction false} FailuresChangeNothing(clock: Clock, files: Files, ops: seq<Op>)
    ensures RunOps(clock, files, Succeeding(clock, files, ops)) == RunOps(clock, files, ops)
    decreases |ops|
  {
    hide Decide, Target;
    if ops != [] {
      var rest := Succeeding(clock, Perform(clock, files, ops[0]), ops[1..]);
      FailuresChangeNothing(clock, Perform(clock, files, ops[0]), ops[1..]);
      if Decide(clock, files, ops[0]).Ok? {
        assert ([ops[0]] + rest)[1..] == rest;
      } else {
        assert [] + rest == rest;
      }
    }
  }

  /**
   * Serialisability. In every reachable state at most one writer is between lock creation and release, every answer
   * is that of a serial run, and when nobody is in the lock the files are those of running the successful calls one
   * after another in lock-acquisition order.
   */
  lemma RunsAreSerial(clock: Clock, start: Files, states: seq<State>, events: seq<Event>, k: nat)
    requires clock.Sane() && IsRun(clock, start, states, events) && k < |states|
    ensures AtMostOneInLock(states[k])
    ensures AnswersAreSerial(clock, start, states[k])
    ensures NobodyInLock(states[k]) ==>
      states[k].files == RunOps(clock, start, Succeeding(clock, start, states[k].served))
  {
    hide Decide, RunOps, Clock.Sane, IsRun, Succeeding, AnswersAreSerial, CallsAdmitted, HolderInv;
    RunInv(clock, start, states, events, k);
    FailuresChangeNothing(clock, start, states[k].served);
  }

  /** Even in the middle of an operation the files are those of a serial run of all calls served, or all but the last. */
  lemma FilesAreSerialPrefix(clock: Clock, start: Files, s: State)
    requires Inv(clock, start, s)
    ensures exists n :: 0 <= n <= |s.served| <= n + 1 && s.files == RunOps(clock, start, s.served[..n])
  {
    hide Decide, RunOps, AnswersAreSerial, CallsAdmitted;
    assert s.served[..|s.served|] == s.served;
    if w :| InLock(PcOf(s, w)) {
      assert HolderInv(clock, start, s, PcOf(s, w));
    } else {
      assert NobodyInLock(s);
    }
  }

  /** Whole-run safety for any number of writers: what holds of serial runs holds of every reachable state. */
  lemma ConcurrentRunsKeepEverything(clock: Clock, start: Files, states: seq<State>, events: seq<Event>, k: nat)
    requires clock.Sane() && Consistent(clock, start) && SuccessorsPresent(start)
    requires IsRun(clock, start, states, events) && k < |states|
    ensures var files := states[k].files;
      && Consistent(clock, files) && SuccessorsPresent(files)
      && (forall name :: name in start ==> name in files && Descends(start[name], files[name]))
  {
    hide RunOps, Clock.Sane, IsRun, Consistent, SuccessorsPresent, Descends;
    RunInv(clock, start, states, events, k);
    var s := states[k];
    FilesAreSerialPrefix(clock, start, s);
    var n :| 0 <= n <= |s.served| && s.files == RunOps(clock, start, s.served[..n]);
    PrefixAdmitted(clock, start, s, n);
    RunKeepsEverything(clock, start, s.served[..n]);
  }

  lemma PrefixAdmitted(clock: Clock, start: Files, s: State, n: nat)
    requires Inv(clock, start, s) && n <= |s.served|
    ensures Admitted(s.served[..n])
  {
  }

  /** A rejected call, a self-supersede and a failed lock write change no file and no other writer, and say which it was. */
  lemma RejectedWriterChangesNothing(clock: Clock, s: State, e: Event, t: State)
    requires Step(clock, s, e, t)
    requires e.Reject? || e.AcquireAndFail? || (e.Call? && PcOf(t, e.w).Returned?)
    ensures t.files == s.files && t.served == s.served && t.answers == s.answers
    ensures PcOf(t, e.w).Returned?
    ensures if !e.Call? then PcOf(t, e.w).answer == Err(if s.lockFile then ConcurrentWriterRejected else LockWriteFailed)
            else e.op.SupersedeOp? && e.op.id == e.op.successor && PcOf(t, e.w).answer == Err(SelfSupersede(e.op.id))
    ensures forall v :: v != e.w ==> PcOf(t, v) == PcOf(s, v)
  {
  }

  // ----- what a writer is told

  /** An answer is a refusal that wrote nothing, or that of the call when it was served. */
  ghost predicate ToldTruly(s: State, op: Op, answer: StoreResult) {
    || (answer == Err(ConcurrentWriterRejected) || answer == Err(LockWriteFailed))
    || (op.SupersedeOp? && op.id == op.successor && answer == Err(SelfSupersede(op.id)))
    || exists i :: 0 <= i < |s.answers| && i < |s.served| && s.served[i] == op && s.answers[i] == answer
  }

  ghost predicate AllToldTruly(s: State) {
    forall w :: PcOf(s, w).Returned? ==> ToldTruly(s, PcOf(s, w).op, PcOf(s, w).answer)
  }

  lemma StillToldTruly(s: State, t: State, op: Op, answer: StoreResult)
    requires ToldTruly(s, op, answer) && s.answers <= t.answers && s.served <= t.served
    ensures ToldTruly(t, op, answer)
  {
    if i :| 0 <= i < |s.answers| && i < |s.served| && s.served[i] == op && s.answers[i] == answer {
      assert t.served[i] == op && t.answers[i] == answer;
    }
  }

  lemma StepTellsTruly(clock: Clock, start: Files, s: State, e: Event, t: State)
    requires Inv(clock, start, s) && AllToldTruly(s) && Step(clock, s, e, t)
    ensures AllToldTruly(t)
  {
    hide Decide, Writes, RunOps, ToldTruly, AnswersAreSerial, CallsAdmitted, AtMostOneInLock;
    assert forall v :: v != e.w ==> PcOf(t, v) == PcOf(s, v);
    forall w | PcOf(t, w).Returned? ensures ToldTruly(t, PcOf(t, w).op, PcOf(t, w).answer) {
      if w != e.w {
        StillToldTruly(s, t, PcOf(t, w).op, PcOf(t, w).answer);
      } else {
        ReturnsTruly(clock, start, s, e, t);
      }
    }
  }

  lemma ReturnsTruly(clock: Clock, start: Files, s: State, e: Event, t: State)
    requires Inv(clock, start, s) && Step(clock, s, e, t) && PcOf(t, e.w).Returned?
    ensures ToldTruly(t, PcOf(t, e.w).op, PcOf(t, e.w).answer)
  {
    hide Decide, Writes, RunOps, AnswersAreSerial, CallsAdmitted, AtMostOneInLock;
    if e.Release? {
      assert HolderInv(clock, start, s, PcOf(s, e.w));
      assert t.served[|s.served| - 1] == PcOf(t, e.w).op;
    }
  }

  /** In every run every returned writer was told the truth. */
  lemma {:induction false} RunTellsTruly(clock: Clock, start: Files, states: seq<State>, events: seq<Event>, k: nat)
    requires clock.Sane() && IsRun(clock, start, states, events) && k < |states|
    ensures AllToldTruly(states[k])
  {
    hide Inv, Step, Clock.Sane, ToldTruly;
    if k > 0 {
      RunTellsTruly(clock, start, states, events, k - 1);
      RunInv(clock, start, states, events, k - 1);
      StepTellsTruly(clock, start, states[k - 1], events[k - 1], states[k]);
    }
  }

  /** Whatever a served call was answered Ok, the store held right after it, in lock order. */
  lemma AcknowledgedIsStored(clock: Clock, start: Files, states: seq<State>, events: seq<Event>, k: nat, i: nat)
    requires clock.Sane() && IsRun(clock, start, states, events) && k < |states|
    requires i < |states[k].answers| && i < |states[k].served| && states[k].answers[i].Ok?
    ensures var s := states[k];
      var held := RunOps(clock, start, s.served[..i + 1]);
      Target(s.served[i]) in held && held[Target(s.served[i])] == s.answers[i].value
  {
    hide Decide, RunOps, Clock.Sane, IsRun, Perform;
    var s := states[k];
    RunsAreSerial(clock, start, states, events, k);
    assert s.served[..i + 1] == s.served[..i] + [s.served[i]];
    RunOpsSnoc(clock, start, s.served[..i], s.served[i]);
    AnswerIsStored(clock, RunOps(clock, start, s.served[..i]), s.served[i]);
  }

  // ----- the lock that is never released

  /** A lock file that no writer owns. */
  ghost predicate Stuck(s: State) {
    s.lockFile && NobodyInLock(s)
  }

  /** A lock write that fails leaves the store stuck. */
  lemma FailedLockWriteSticks(clock: Clock, start: Files, s: State, w: Writer, t: State)
    requires Inv(clock, start, s) && Step(clock, s, AcquireAndFail(w), t)
    ensures Stuck(t)
  {
    hide Decide, RunOps, Inv;
    HoldersNeedTheLock(clock, start, s);
    assert forall v :: v != w ==> PcOf(t, v) == PcOf(s, v);
  }

  /** From a stuck store on, no run changes a file or serves a call. */
  lemma {:induction false} StuckForever(clock: Clock, states: seq<State>, events: seq<Event>, k: nat)
    requires |states| == |events| + 1 && k < |states| && Stuck(states[0])
    requires forall i :: 0 <= i < |events| ==> Step(clock, states[i], events[i], states[i + 1])
    ensures Stuck(states[k]) && states[k].files == states[0].files && states[k].served == states[0].served
  {
    hide Decide, Writes;
    if k > 0 {
      StuckForever(clock, states, events, k - 1);
      assert Step(clock, states[k - 1], events[k - 1], states[k]);
      StuckStays(clock, states[k - 1], events[k - 1], states[k]);
    }
  }

  lemma StuckStays(clock: Clock, s: State, e: Event, t: State)
    requires Stuck(s) && Step(clock, s, e, t)
    ensures Stuck(t) && t.files == s.files && t.served == s.served
  {
    hide Decide, Writes;
    assert !InLock(PcOf(s, e.w));
    forall v ensures !InLock(PcOf(t, v)) {
      assert !InLock(PcOf(s, v));
    }
  }

  /** Some lock write has failed among the first k events. */
  ghost predicate SomeLockWriteFailed(events: seq<Event>, k: nat) {
    exists j :: 0 <= j < k && j < |events| && events[j].AcquireAndFail?
  }

  /** The lock file is there exactly when a writer is between creating and removing it. */
  ghost predicate LockIsOwned(s: State) {
    s.lockFile <==> exists w :: InLock(PcOf(s, w))
  }

  lemma StepKeepsOwned(clock: Clock, start: Files, s: State, e: Event, t: State)
    requires Inv(clock, start, s) && LockIsOwned(s) && Step(clock, s, e, t) && !e.AcquireAndFail?
    ensures LockIsOwned(t)
  {
    hide Decide, Writes, RunOps, HolderInv, AnswersAreSerial, CallsAdmitted;
    assert forall v :: v != e.w ==> PcOf(t, v) == PcOf(s, v);
    assert InLock(PcOf(t, e.w)) || !InLock(PcOf(t, e.w));
    if v :| InLock(PcOf(s, v)) {
      assert v != e.w ==> InLock(PcOf(t, v));
      assert forall w :: InLock(PcOf(s, w)) ==> w == v;
    }
  }

  /**
   * The lock file is always released, except that once a write of its text has failed it never is: in every run the
   * store is stuck if and only if such a write failed before, and until then the file has an owner.
   */
  lemma {:induction false} StuckExactly(clock: Clock, start: Files, states: seq<State>, events: seq<Event>, k: nat)
    requires clock.Sane() && IsRun(clock, start, states, events) && k < |states|
    ensures Stuck(states[k]) <==> SomeLockWriteFailed(events, k)
    ensures !SomeLockWriteFailed(events, k) ==> LockIsOwned(states[k])
  {
    hide Inv, Step, Clock.Sane, Stuck;
    if k == 0 {
      FreeAtFirst(start, states[0]);
    } else {
      var s, e, t := states[k - 1], events[k - 1], states[k];
      StuckExactly(clock, start, states, events, k - 1);
      RunInv(clock, start, states, events, k - 1);
      assert Step(clock, s, e, t);
      assert SomeLockWriteFailed(events, k) <==> SomeLockWriteFailed(events, k - 1) || e.AcquireAndFail?;
      if SomeLockWriteFailed(events, k - 1) {
        StuckStays(clock, s, e, t);
      } else if e.AcquireAndFail? {
        FailedLockWriteSticks(clock, start, s, e.w, t);
      } else {
        StepKeepsOwned(clock, start, s, e, t);
        OwnedIsNotStuck(t);
      }
    }
  }

  lemma FreeAtFirst(start: Files, s: State)
    requires Initial(start, s)
    ensures !Stuck(s) && LockIsOwned(s)
  {
  }

  lemma OwnedIsNotStuck(s: State)
    requires LockIsOwned(s)
    ensures !Stuck(s)
  {
  }

  // ----- a call with nobody in its way

  ghost predicate Leads(clock: Clock, states: seq<State>, events: seq<Event>) {
    |states| == |events| + 1 && forall i :: 0 <= i < |events| ==> Step(clock, states[i], events[i], states[i + 1])
  }

  lemma Onward(clock: Clock, states: seq<State>, events: seq<Event>, e: Event, t: State)
    requires Leads(clock, states, events) && Step(clock, states[|events|], e, t)
    ensures Leads(clock, states + [t], events + [e]) && (states + [t])[0] == states[0] && (states + [t])[|events| + 1] == t
  {
    hide Step;
    var more, after := states + [t], events + [e];
    forall i | 0 <= i < |after| ensures Step(clock, more[i], after[i], more[i + 1]) {
      if i < |events| {
        assert more[i] == states[i] && more[i + 1] == states[i + 1] && after[i] == events[i];
      }
    }
  }

  /** The state of the others, and the writer's own. */
  ghost predicate Alone(s: State, t: State, w: Writer, pc: Pc, lockFile: bool) {
    PcOf(t, w) == pc && t.lockFile == lockFile && forall v :: v != w ==> PcOf(t, v) == PcOf(s, v)
  }

  lemma EnterAlone(clock: Clock, s: State, w: Writer, op: Op) returns (a: State, b: State)
    requires !s.lockFile && (PcOf(s, w).Idle? || PcOf(s, w).Returned?) && (op.SupersedeOp? ==> op.id != op.successor)
    ensures Step(clock, s, Call(w, op), a) && Step(clock, a, Acquire(w), b)
    ensures b.files == s.files && Alone(s, b, w, Holding(op, map[]), true)
  {
    a := Goto(s, w, Calling(op));
    b := Goto(a, w, Holding(op, map[])).(lockFile := true, served := a.served + [op]);
  }

  lemma LookAlone(clock: Clock, s: State, w: Writer, op: Op, seen: map<string, Option<Record>>, name: string) returns (t: State)
    requires PcOf(s, w) == Holding(op, seen)
    ensures Step(clock, s, Look(w, name), t) && t.files == s.files
    ensures Alone(s, t, w, Holding(op, seen[name := if name in s.files then Some(s.files[name]) else None]), s.lockFile)
  {
    t := Goto(s, w, Holding(op, seen[name := if name in s.files then Some(s.files[name]) else None]));
  }

  lemma LeaveAlone(clock: Clock, s: State, w: Writer, op: Op, seen: map<string, Option<Record>>) returns (a: State, b: State, c: State)
    requires clock.Sane() && PcOf(s, w) == Holding(op, seen) && Needed(op) <= seen.Keys
    requires forall name :: name in seen ==> seen[name] == if name in s.files then Some(s.files[name]) else None
    ensures Step(clock, s, Conclude(w), a) && Step(clock, a, Write(w), b) && Step(clock, b, Release(w), c)
    ensures c.files == Perform(clock, s.files, op) && Alone(s, c, w, Returned(op, Decide(clock, s.files, op)), false)
  {
    hide Decide, Writes, Clock.Sane, Target, Needed;
    ConcludeReadsTruth(clock, s, PcOf(s, w));
    WriteIsPerform(clock, s.files, op);
    var answer := Decide(clock, s.files, op);
    a := Goto(s, w, Decided(op, answer, Writes(clock, s.files, op))).(answers := s.answers + [answer]);
    b := Goto(a, w, Finishing(op, answer)).(files := Perform(clock, s.files, op));
    c := Goto(b, w, Returned(op, answer)).(lockFile := false);
  }

  /** With the lock free a writer can go through, and is served as a serial store would serve it. */
  lemma FreeLockServes(clock: Clock, s: State, w: Writer, op: Op) returns (states: seq<State>, events: seq<Event>)
    requires clock.Sane() && !s.lockFile && (PcOf(s, w).Idle? || PcOf(s, w).Returned?)
    requires op.SupersedeOp? ==> op.id != op.successor
    ensures Leads(clock, states, events) && states[0] == s
    ensures var t := states[|events|];
      t.files == Perform(clock, s.files, op) && Alone(s, t, w, Returned(op, Decide(clock, s.files, op)), false)
  {
    hide Step, Decide, Perform, Clock.Sane, ArtifactFileName, Target;
    var first, other := Target(op), if op.SupersedeOp? then ArtifactFileName(op.successor) else Target(op);
    states, events := [s], [];
    var a, b := EnterAlone(clock, s, w, op);
    Onward(clock, states, events, Call(w, op), a);
    states, events := states + [a], events + [Call(w, op)];
    Onward(clock, states, events, Acquire(w), b);
    states, events := states + [b], events + [Acquire(w)];
    var c := LookAlone(clock, b, w, op, map[], first);
    Onward(clock, states, events, Look(w, first), c);
    states, events := states + [c], events + [Look(w, first)];
    var d := LookAlone(clock, c, w, op, PcOf(c, w).seen, other);
    Onward(clock, states, events, Look(w, other), d);
    states, events := states + [d], events + [Look(w, other)];
    var e, f, g := LeaveAlone(clock, d, w, op, PcOf(d, w).seen);
    Onward(clock, states, events, Conclude(w), e);
    states, events := states + [e], events + [Conclude(w)];
    Onward(clock, states, events, Write(w), f);
    states, events := states + [f], events + [Write(w)];
    Onward(clock, states, events, Release(w), g);
    states, events := states + [g], events + [Release(w)];
  }
}
