/**
 * The refresh protocol of the shared key set: any number of requests, interleaved at every access to shared state
 * (hosts/memory-mcp/src/resource_auth.rs, validate_with_refresh).
 */
module JwksRefresh {
  import opened Wrappers
  import opened Jwks

  type Request = nat
  type Answer = Result<Claims, TokenError>

  /** Thirty seconds, in nanoseconds. */
  const SPACING: Time := 30_000_000_000

  datatype Pc =
    | Idle
    | Begun(token: Token)
    | Waiting(token: Token)
    | Entered(token: Token)
    | Refused(token: Token)
    | Fetching(token: Token)
    | Installing(token: Token, fetched: seq<Jwk>)
    | Stamping(token: Token)
    | LastCheck(token: Token)
    | Leaving(token: Token, answer: Answer)
    | Returned(token: Token, answer: Answer)

  /** When a fetch began and, if its key set was installed, when. */
  datatype Fetch = Fetch(begun: Time, installed: Option<Time>)

  /** `fetches` records what happened; no request looks at it. */
  datatype State = State(
    keys: seq<Jwk>,
    stamp: Option<Time>,
    owner: Option<Request>,
    now: Time,
    pcs: map<Request, Pc>,
    fetches: seq<Fetch>)

  datatype Event =
    | Tick(later: Time)
    | Call(r: Request, token: Token)
    | FirstCheck(r: Request)
    | Enter(r: Request)
    | SecondCheck(r: Request)
    | CheckSpacing(r: Request)
    | FetchEnds(r: Request, body: Option<seq<Jwk>>)
    | Install(r: Request)
    | Stamp(r: Request)
    | FinalCheck(r: Request)
    | Leave(r: Request)
    | Cancel(r: Request)

  function PcOf(s: State, r: Request): Pc {
    if r in s.pcs then s.pcs[r] else Idle
  }

  function Goto(s: State, r: Request, pc: Pc): State {
    s.(pcs := s.pcs[r := pc])
  }

  /** Holding the refresh mutex. */
  predicate Inside(pc: Pc) {
    pc.Entered? || pc.Refused? || pc.Fetching? || pc.Installing? || pc.Stamping? || pc.LastCheck? || pc.Leaving?
  }

  function Verdict(v: Verifier, s: State, token: Token): Answer {
    ValidateAgainst(v, token, s.keys, s.now)
  }

  predicate TooSoon(s: State) {
    s.stamp.Some? && s.now - s.stamp.value < SPACING
  }

  ghost predicate Step(v: Verifier, s: State, e: Event, t: State) {
    match e
    case Tick(later) => later >= s.now && t == s.(now := later)
    case Call(r, token) => (PcOf(s, r).Idle? || PcOf(s, r).Returned?) && t == Goto(s, r, Begun(token))
    case FirstCheck(r) =>
      && PcOf(s, r).Begun?
      && var token := PcOf(s, r).token;
         var verdict := Verdict(v, s, token);
         t == Goto(s, r, if verdict == Err(UnknownKey) then Waiting(token) else Returned(token, verdict))
    case Enter(r) =>
      PcOf(s, r).Waiting? && s.owner == None && t == Goto(s, r, Entered(PcOf(s, r).token)).(owner := Some(r))
    case SecondCheck(r) =>
      && PcOf(s, r).Entered?
      && var token := PcOf(s, r).token;
         var verdict := Verdict(v, s, token);
         t == Goto(s, r, if verdict.Ok? then Leaving(token, verdict) else Refused(token))
    case CheckSpacing(r) =>
      && PcOf(s, r).Refused?
      && var token := PcOf(s, r).token;
         t == if TooSoon(s) then Goto(s, r, Leaving(token, Err(UnknownKey)))
              else Goto(s, r, Fetching(token)).(fetches := s.fetches + [Fetch(s.now, None)])
    case FetchEnds(r, body) =>
      && PcOf(s, r).Fetching?
      && var token := PcOf(s, r).token;
         t == Goto(s, r,
           if body.None? then Leaving(token, Err(JwksUnavailable))
           else if !ValidSet(v, body.value) then Leaving(token, Err(EmptyJwks))
           else Installing(token, body.value))
    case Install(r) =>
      && PcOf(s, r).Installing? && s.fetches != []
      && var n := |s.fetches| - 1;
         t == Goto(s, r, Stamping(PcOf(s, r).token)).(
           keys := PcOf(s, r).fetched, fetches := s.fetches[n := s.fetches[n].(installed := Some(s.now))])
    case Stamp(r) => PcOf(s, r).Stamping? && t == Goto(s, r, LastCheck(PcOf(s, r).token)).(stamp := Some(s.now))
    case FinalCheck(r) =>
      && PcOf(s, r).LastCheck?
      && var token := PcOf(s, r).token;
         t == Goto(s, r, Leaving(token, Verdict(v, s, token)))
    case Leave(r) =>
      PcOf(s, r).Leaving? && t == Goto(s, r, Returned(PcOf(s, r).token, PcOf(s, r).answer)).(owner := None)
    case Cancel(r) =>
      // a dropped future stops at an await point, and a guard it holds is released
      && (PcOf(s, r).Waiting? || PcOf(s, r).Fetching?)
      && t == Goto(s, r, Idle).(owner := if PcOf(s, r).Fetching? then None else s.owner)
  }

  // ----- the invariant

  ghost predicate OwnerInside(s: State) {
    forall r: Request :: Inside(PcOf(s, r)) <==> s.owner == Some(r)
  }

  ghost predicate SetsAreValid(v: Verifier, s: State) {
    && ValidSet(v, s.keys)
    && forall r :: PcOf(s, r).Installing? ==> ValidSet(v, PcOf(s, r).fetched)
  }

  /** No fetch begins less than the spacing after an earlier install. */
  ghost predicate Spaced(fetches: seq<Fetch>) {
    forall i, j :: 0 <= i < j < |fetches| && fetches[i].installed.Some? ==>
      fetches[i].installed.value + SPACING <= fetches[j].begun
  }

  ghost predicate Happened(s: State) {
    forall i :: 0 <= i < |s.fetches| ==>
      && s.fetches[i].begun <= s.now
      && (s.fetches[i].installed.Some? ==> s.fetches[i].begun <= s.fetches[i].installed.value <= s.now)
  }

  /** The stamp is no older than any install, except between an install and its stamp. */
  ghost predicate StampCovers(s: State) {
    && (s.stamp.Some? ==> s.stamp.value <= s.now)
    && ((forall r :: !PcOf(s, r).Stamping?) ==>
          forall i :: 0 <= i < |s.fetches| && s.fetches[i].installed.Some? ==>
            s.stamp.Some? && s.fetches[i].installed.value <= s.stamp.value)
  }

  ghost predicate FetchUnderway(s: State) {
    forall r :: PcOf(s, r).Fetching? || PcOf(s, r).Installing? ==>
      s.fetches != [] && s.fetches[|s.fetches| - 1].installed.None?
  }

  ghost predicate Inv(v: Verifier, s: State) {
    OwnerInside(s) && SetsAreValid(v, s) && Spaced(s.fetches) && Happened(s) && StampCovers(s) && FetchUnderway(s)
  }

  /** The server starts with a key set that was validated when it was loaded. */
  ghost predicate Initial(v: Verifier, s: State) {
    ValidSet(v, s.keys) && s == State(s.keys, None, None, s.now, map[], [])
  }

  lemma InitialInv(v: Verifier, s: State)
    requires Initial(v, s)
    ensures Inv(v, s)
  {
  }

  lemma StepKeepsOwner(v: Verifier, s: State, e: Event, t: State)
    requires OwnerInside(s) && Step(v, s, e, t)
    ensures OwnerInside(t)
  {
  }

  lemma StepKeepsSets(v: Verifier, s: State, e: Event, t: State)
    requires SetsAreValid(v, s) && Step(v, s, e, t)
    ensures SetsAreValid(v, t)
  {
    hide ValidSet, Verdict, TooSoon;
    if e.Tick? {
      assert forall q :: PcOf(t, q) == PcOf(s, q);
    } else {
      assert forall q :: q != e.r ==> PcOf(t, q) == PcOf(s, q);
    }
  }

  lemma StepKeepsHappened(v: Verifier, s: State, e: Event, t: State)
    requires Happened(s) && Step(v, s, e, t)
    ensures Happened(t)
  {
    hide ValidSet, Verdict, TooSoon;
  }

  lemma StepKeepsUnderway(v: Verifier, s: State, e: Event, t: State)
    requires OwnerInside(s) && FetchUnderway(s) && Step(v, s, e, t)
    ensures FetchUnderway(t)
  {
    hide ValidSet, Verdict, TooSoon;
    if e.Tick? {
      assert forall q :: PcOf(t, q) == PcOf(s, q);
    } else {
      assert forall q :: q != e.r ==> PcOf(t, q) == PcOf(s, q);
      assert Inside(PcOf(s, e.r)) ==> s.owner == Some(e.r);
    }
  }

  lemma StepKeepsSpacing(v: Verifier, s: State, e: Event, t: State)
    requires OwnerInside(s) && StampCovers(s) && Spaced(s.fetches) && Step(v, s, e, t)
    ensures Spaced(t.fetches)
  {
    hide ValidSet, Verdict;
    if e.CheckSpacing? && !TooSoon(s) {
      assert PcOf(s, e.r).Refused? && s.owner == Some(e.r);
      assert forall q :: !PcOf(s, q).Stamping?;
    }
  }

  lemma StepKeepsStamp(v: Verifier, s: State, e: Event, t: State)
    requires OwnerInside(s) && Happened(s) && StampCovers(s) && Step(v, s, e, t)
    ensures StampCovers(t)
  {
    hide ValidSet, Verdict, TooSoon;
    if !e.Tick? {
      assert forall q :: q != e.r ==> PcOf(t, q) == PcOf(s, q);
      if e.Install? {
        assert PcOf(t, e.r).Stamping?;
      } else if e.Stamp? {
        assert forall q :: PcOf(s, q).Stamping? ==> q == e.r;
      } else {
        assert PcOf(t, e.r).Stamping? == PcOf(s, e.r).Stamping? == false;
        assert forall q :: PcOf(t, q).Stamping? <==> PcOf(s, q).Stamping?;
      }
    } else {
      assert forall q :: PcOf(t, q) == PcOf(s, q);
    }
  }

  lemma StepKeepsInv(v: Verifier, s: State, e: Event, t: State)
    requires Inv(v, s) && Step(v, s, e, t)
    ensures Inv(v, t)
  {
    hide Step, OwnerInside, SetsAreValid, Spaced, Happened, StampCovers, FetchUnderway;
    StepKeepsOwner(v, s, e, t);
    StepKeepsSets(v, s, e, t);
    StepKeepsSpacing(v, s, e, t);
    StepKeepsHappened(v, s, e, t);
    StepKeepsStamp(v, s, e, t);
    StepKeepsUnderway(v, s, e, t);
  }

  // ----- runs

  ghost predicate IsRun(v: Verifier, states: seq<State>, events: seq<Event>) {
    && |states| == |events| + 1
    && Initial(v, states[0])
    && forall i :: 0 <= i < |events| ==> Step(v, states[i], events[i], states[i + 1])
  }

  lemma {:induction false} RunInv(v: Verifier, states: seq<State>, events: seq<Event>, k: nat)
    requires IsRun(v, states, events) && k < |states|
    ensures Inv(v, states[k])
  {
    hide Inv, Step, Initial;
    if k == 0 {
      InitialInv(v, states[0]);
    } else {
      RunInv(v, states, events, k - 1);
      StepKeepsInv(v, states[k - 1], events[k - 1], states[k]);
    }
  }

  ghost predicate AtMostOneFetch(s: State) {
    forall q, r :: PcOf(s, q).Fetching? && PcOf(s, r).Fetching? ==> q == r
  }

  /** Two installs are at least the spacing apart. */
  ghost predicate InstallsApart(fetches: seq<Fetch>) {
    forall i, j :: 0 <= i < j < |fetches| && fetches[i].installed.Some? && fetches[j].installed.Some? ==>
      fetches[i].installed.value + SPACING <= fetches[j].installed.value
  }

  /** In every interleaving: one fetch at a time, a key set that may serve, installs thirty seconds apart. */
  lemma RefreshIsSafe(v: Verifier, states: seq<State>, events: seq<Event>, k: nat)
    requires IsRun(v, states, events) && k < |states|
    ensures AtMostOneFetch(states[k])
    ensures ValidSet(v, states[k].keys)
    ensures Spaced(states[k].fetches) && InstallsApart(states[k].fetches)
  {
    hide IsRun, ValidSet;
    RunInv(v, states, events, k);
    var s := states[k];
    forall q, r | PcOf(s, q).Fetching? && PcOf(s, r).Fetching? ensures q == r {
      assert Inside(PcOf(s, q)) && Inside(PcOf(s, r));
    }
    forall i, j | 0 <= i < j < |s.fetches| && s.fetches[i].installed.Some? && s.fetches[j].installed.Some?
      ensures s.fetches[i].installed.value + SPACING <= s.fetches[j].installed.value
    {
      assert s.fetches[j].begun <= s.fetches[j].installed.value;
    }
  }

  /** The fetches that were installed. */
  function Installs(fetches: seq<Fetch>): set<nat> {
    set i: nat | i < |fetches| && fetches[i].installed.Some?
  }

  lemma NoInstalls()
    ensures Installs([]) == {}
  {
  }

  lemma LastInstall(fetches: seq<Fetch>)
    requires fetches != []
    ensures var n := |fetches| - 1;
      |Installs(fetches)| == |Installs(fetches[..n])| + if fetches[n].installed.Some? then 1 else 0
  {
    var n := |fetches| - 1;
    assert Installs(fetches) == Installs(fetches[..n]) + if fetches[n].installed.Some? then {n} else {};
  }

  lemma SomeInstall(fetches: seq<Fetch>)
    requires Installs(fetches) != {}
    ensures exists i :: 0 <= i < |fetches| && fetches[i].installed.Some?
  {
    var i :| i in Installs(fetches);
  }

  /** The rate bound: n installs take at least n - 1 spacings. */
  lemma {:induction false} InstallRate(fetches: seq<Fetch>, from: Time, to: Time)
    requires InstallsApart(fetches) && from <= to
    requires forall i :: 0 <= i < |fetches| && fetches[i].installed.Some? ==> from <= fetches[i].installed.value <= to
    ensures (|Installs(fetches)| - 1) * SPACING <= to - from
  {
    hide Installs;
    NoInstalls();
    if fetches != [] {
      var n := |fetches| - 1;
      var rest := fetches[..n];
      LastInstall(fetches);
      if fetches[n].installed.None? || Installs(rest) == {} {
        InstallRate(rest, from, to);
      } else {
        var last := fetches[n].installed.value;
        assert from <= last - SPACING by {
          SomeInstall(rest);
          var i :| 0 <= i < n && rest[i].installed.Some?;
          assert fetches[i].installed.value + SPACING <= last;
        }
        forall i | 0 <= i < n && rest[i].installed.Some? ensures from <= rest[i].installed.value <= last - SPACING {
          assert fetches[i].installed.value + SPACING <= last;
        }
        InstallRate(rest, from, last - SPACING);
      }
    }
  }

  // ----- what a waiting request is answered

  ghost predicate NeedsNoFetch(pc: Pc, token: Token) {
    || pc == Waiting(token)
    || pc == Entered(token)
    || (pc.Leaving? && pc.token == token && pc.answer.Ok?)
    || (pc.Returned? && pc.token == token && pc.answer.Ok?)
  }

  /** r makes no new call, and is not cancelled, between states i and k. */
  ghost predicate Undisturbed(events: seq<Event>, r: Request, i: nat, k: nat)
    requires k <= |events|
  {
    forall j :: i <= j < k && !events[j].Tick? && events[j].r == r ==> !events[j].Call? && !events[j].Cancel?
  }

  /** A waiting request whose token the shared key set accepts throughout is answered Ok and never fetches. */
  lemma {:induction false} AcceptedWaiterNeedsNoFetch(
      v: Verifier, states: seq<State>, events: seq<Event>, r: Request, token: Token, i: nat, k: nat)
    requires IsRun(v, states, events) && i <= k < |states|
    requires PcOf(states[i], r) == Waiting(token) && Undisturbed(events, r, i, k)
    requires forall j :: i <= j <= k ==> Verdict(v, states[j], token).Ok?
    ensures NeedsNoFetch(PcOf(states[k], r), token)
    decreases k - i
  {
    hide Verdict, ValidSet, TooSoon, Initial;
    if k > i {
      AcceptedWaiterNeedsNoFetch(v, states, events, r, token, i, k - 1);
      assert Step(v, states[k - 1], events[k - 1], states[k]);
    }
  }

  /** Fetch m was installed at that time. */
  ghost predicate InstalledAt(s: State, m: int, at: Time) {
    0 <= m < |s.fetches| && s.fetches[m].installed == Some(at)
  }

  lemma StepKeepsKeys(v: Verifier, s: State, e: Event, t: State, m: int, at: Time)
    requires Inv(v, s) && Step(v, s, e, t) && InstalledAt(s, m, at) && t.now < at + SPACING
    ensures t.keys == s.keys && InstalledAt(t, m, at) && s.now <= t.now
  {
    hide ValidSet, Verdict, TooSoon, OwnerInside, SetsAreValid, StampCovers;
  }

  /** For thirty seconds after an install the shared key set stays as it is. */
  lemma {:induction false} KeysStay(v: Verifier, states: seq<State>, events: seq<Event>, m: int, at: Time, i: nat, k: nat)
    requires IsRun(v, states, events) && i <= k < |states|
    requires InstalledAt(states[i], m, at) && states[k].now < at + SPACING
    ensures forall j :: i <= j <= k ==> states[j].keys == states[i].keys && states[i].now <= states[j].now <= states[k].now
    ensures InstalledAt(states[k], m, at)
    decreases k - i
  {
    hide Inv, Initial, Step;
    if k > i {
      RunInv(v, states, events, k - 1);
      assert Step(v, states[k - 1], events[k - 1], states[k]);
      ClockGoesOn(v, states[k - 1], events[k - 1], states[k]);
      KeysStay(v, states, events, m, at, i, k - 1);
      StepKeepsKeys(v, states[k - 1], events[k - 1], states[k], m, at);
    }
  }

  lemma ClockGoesOn(v: Verifier, s: State, e: Event, t: State)
    requires Step(v, s, e, t)
    ensures s.now <= t.now
  {
  }

  /**
   * A request that waits for the mutex when a key set that accepts its token has been installed is answered Ok and
   * never fetches, however the rest interleaves, within thirty seconds of the install: no other set replaces it.
   */
  lemma WaiterNeedsNoFetch(
      v: Verifier, states: seq<State>, events: seq<Event>, r: Request, token: Token, m: int, at: Time, i: nat, k: nat)
    requires IsRun(v, states, events) && i <= k < |states|
    requires PcOf(states[i], r) == Waiting(token) && Undisturbed(events, r, i, k)
    requires InstalledAt(states[i], m, at) && states[k].now < at + SPACING
    requires forall t :: states[i].now <= t <= states[k].now ==> ValidateAgainst(v, token, states[i].keys, t).Ok?
    ensures states[k].keys == states[i].keys
    ensures NeedsNoFetch(PcOf(states[k], r), token)
  {
    hide IsRun, ValidateAgainst, Undisturbed, NeedsNoFetch;
    KeysStay(v, states, events, m, at, i, k);
    AcceptedWaiterNeedsNoFetch(v, states, events, r, token, i, k);
  }

  /** Every Ok answer was, at some moment after the call, the verdict of the shared key set. */
  lemma {:induction false} OkWasAVerdict(v: Verifier, states: seq<State>, events: seq<Event>, r: Request, k: nat)
    requires IsRun(v, states, events) && k < |states|
    requires var pc := PcOf(states[k], r); (pc.Leaving? || pc.Returned?) && pc.answer.Ok?
    ensures var pc := PcOf(states[k], r);
      exists j :: 0 <= j < k && CheckedAt(v, states, events, r, j, k) && Verdict(v, states[j], pc.token) == pc.answer
  {
    hide Verdict, ValidSet, TooSoon, Initial;
    assert k > 0 by { hide Step; InitialPc(v, states[0], r); }
    var s, e, t := states[k - 1], events[k - 1], states[k];
    assert Step(v, s, e, t);
    var pc, before := PcOf(t, r), PcOf(s, r);
    if (before.Leaving? || before.Returned?) && before.token == pc.token && before.answer == pc.answer {
      OkWasAVerdict(v, states, events, r, k - 1);
      var j :| 0 <= j < k - 1 && CheckedAt(v, states, events, r, j, k - 1) && Verdict(v, states[j], pc.token) == pc.answer;
      assert CheckedAt(v, states, events, r, j, k);
    } else {
      assert CheckedAt(v, states, events, r, k - 1, k);
    }
  }

  /** Event j is the check that the answer r has at k came from. */
  ghost predicate CheckedAt(v: Verifier, states: seq<State>, events: seq<Event>, r: Request, j: int, k: nat) {
    && 0 <= j < k <= |events| && |events| < |states|
    && (events[j] == FirstCheck(r) || events[j] == SecondCheck(r) || events[j] == FinalCheck(r))
    && forall m :: j < m < k && events[m].Call? ==> events[m].r != r
  }

  lemma InitialPc(v: Verifier, s: State, r: Request)
    requires Initial(v, s)
    ensures PcOf(s, r) == Idle
  {
  }

  /** On the way through the mutex, up to the last check. */
  predicate Refreshing(pc: Pc) {
    || pc.Waiting? || pc.Entered? || pc.Refused? || pc.Fetching?
    || pc.Installing? || pc.Stamping? || pc.LastCheck?
  }

  /** Event j is the first check of r's call that is under way at k, and no key of the shared set had the token's id then. */
  ghost predicate KeyWasUnknown(v: Verifier, states: seq<State>, events: seq<Event>, r: Request, token: Token, j: int, k: nat) {
    && 0 <= j < k <= |events| && |events| < |states|
    && events[j] == FirstCheck(r) && NamesNoKey(token, states[j].keys)
    && forall m :: j < m < k && events[m].Call? ==> events[m].r != r
  }

  /** Only a request whose key was unknown at its first check waits for the mutex, and so only such a request fetches. */
  lemma {:induction false} OnlyUnknownKeysRefresh(v: Verifier, states: seq<State>, events: seq<Event>, r: Request, k: nat)
    requires IsRun(v, states, events) && k < |states| && Refreshing(PcOf(states[k], r))
    ensures exists j :: KeyWasUnknown(v, states, events, r, PcOf(states[k], r).token, j, k)
  {
    hide Verdict, ValidSet, TooSoon, Initial;
    assert k > 0 by { hide Step; InitialPc(v, states[0], r); }
    var s, e, t := states[k - 1], events[k - 1], states[k];
    assert Step(v, s, e, t);
    var token := PcOf(t, r).token;
    if Refreshing(PcOf(s, r)) {
      OnlyUnknownKeysRefresh(v, states, events, r, k - 1);
      var j :| KeyWasUnknown(v, states, events, r, token, j, k - 1);
      assert KeyWasUnknown(v, states, events, r, token, j, k);
    } else {
      UnknownMeans(v, s, token);
      assert KeyWasUnknown(v, states, events, r, token, k - 1, k);
    }
  }

  lemma UnknownMeans(v: Verifier, s: State, token: Token)
    ensures Verdict(v, s, token) == Err(UnknownKey) <==> NamesNoKey(token, s.keys)
  {
    VerdictExactly(v, token, s.keys, s.now);
  }

  // ----- where an answer comes from

  /** What the answer says of the moment it was decided, by the event that decided it. */
  ghost predicate Causes(v: Verifier, s: State, e: Event, r: Request, token: Token, answer: Answer) {
    var verdict := Verdict(v, s, token);
    match e
    case FirstCheck(q) => q == r && verdict == answer && !NamesNoKey(token, s.keys)
    case SecondCheck(q) => q == r && verdict == answer && answer.Ok?
    case CheckSpacing(q) => q == r && answer == Err(UnknownKey) && s.stamp.Some? && s.now - s.stamp.value < 30_000_000_000
    case FetchEnds(q, body) =>
      && q == r
      && ((body.None? && answer == Err(JwksUnavailable))
          || (body.Some? && !ValidSet(v, body.value) && answer == Err(EmptyJwks)))
    case FinalCheck(q) => q == r && verdict == answer
    case _ => false
  }

  /** Event j of r's present call decided its answer. */
  ghost predicate CausedAt(v: Verifier, states: seq<State>, events: seq<Event>, r: Request, token: Token, answer: Answer, j: int, k: nat) {
    && 0 <= j < k <= |events| && |events| < |states|
    && Causes(v, states[j], events[j], r, token, answer)
    && forall m :: j < m < k && events[m].Call? ==> events[m].r != r
  }

  /**
   * Every answer has its cause: a verdict of the shared set at one of the call's checks, a refresh refused within thirty
   * seconds of an install, a fetch that failed, or a fetched set that does not pass validation.
   */
  lemma {:induction false} AnswersHaveCauses(v: Verifier, states: seq<State>, events: seq<Event>, r: Request, k: nat)
    requires IsRun(v, states, events) && k < |states| && (PcOf(states[k], r).Leaving? || PcOf(states[k], r).Returned?)
    ensures var pc := PcOf(states[k], r); exists j :: CausedAt(v, states, events, r, pc.token, pc.answer, j, k)
  {
    hide Verdict, ValidSet, Initial, NamesNoKey;
    assert k > 0 by { hide Step; InitialPc(v, states[0], r); }
    var s, e, t := states[k - 1], events[k - 1], states[k];
    assert Step(v, s, e, t);
    var pc, before := PcOf(t, r), PcOf(s, r);
    if (before.Leaving? || before.Returned?) && before.token == pc.token && before.answer == pc.answer {
      AnswersHaveCauses(v, states, events, r, k - 1);
      var j :| CausedAt(v, states, events, r, pc.token, pc.answer, j, k - 1);
      assert CausedAt(v, states, events, r, pc.token, pc.answer, j, k);
    } else {
      UnknownMeans(v, s, pc.token);
      assert CausedAt(v, states, events, r, pc.token, pc.answer, k - 1, k);
    }
  }

  // ----- fetches that fail

  /** Reachable by a run whose fetches all began at the same instant. */
  ghost predicate ReachedAtOnce(v: Verifier, s: State, n: nat) {
    && (exists states, events :: IsRun(v, states, events) && states[|events|] == s)
    && |s.fetches| == n
    && forall i :: 0 <= i < n ==> s.fetches[i].begun == s.now
  }

  lemma Extend(v: Verifier, s: State, e: Event, t: State)
    requires exists states, events :: IsRun(v, states, events) && states[|events|] == s
    requires Step(v, s, e, t)
    ensures exists states, events :: IsRun(v, states, events) && states[|events|] == t
  {
    hide Initial, Step;
    var states, events :| IsRun(v, states, events) && states[|events|] == s;
    var moreStates, moreEvents := states + [t], events + [e];
    forall i | 0 <= i < |moreEvents| ensures Step(v, moreStates[i], moreEvents[i], moreStates[i + 1]) {
      if i < |events| {
        assert moreStates[i] == states[i] && moreStates[i + 1] == states[i + 1] && moreEvents[i] == events[i];
      } else {
        assert moreStates[i] == s && moreStates[i + 1] == t && moreEvents[i] == e;
      }
    }
    assert IsRun(v, moreStates, moreEvents) && moreStates[|moreEvents|] == t;
  }

  /** A request for an unknown key, from its call to the second check. */
  lemma RequestEnters(v: Verifier, s: State, token: Token, n: nat) returns (t: State)
    requires ReachedAtOnce(v, s, n)
    requires s.owner == None && (PcOf(s, 0).Idle? || PcOf(s, 0).Returned?)
    requires Verdict(v, s, token) == Err(UnknownKey)
    ensures ReachedAtOnce(v, t, n)
    ensures t == Goto(s, 0, Entered(token)).(owner := Some(0))
  {
    hide IsRun, ValidSet, ValidateAgainst, TooSoon;
    var a := Goto(s, 0, Begun(token));
    Extend(v, s, Call(0, token), a);
    var b := Goto(a, 0, Waiting(token));
    Extend(v, a, FirstCheck(0), b);
    t := Goto(b, 0, Entered(token)).(owner := Some(0));
    Extend(v, b, Enter(0), t);
    assert t == Goto(s, 0, Entered(token)).(owner := Some(0));
  }

  /** Its fetch fails. */
  lemma FetchFails(v: Verifier, s: State, token: Token, n: nat) returns (t: State)
    requires ReachedAtOnce(v, s, n) && s.stamp == None && PcOf(s, 0) == Entered(token)
    requires Verdict(v, s, token) == Err(UnknownKey)
    ensures ReachedAtOnce(v, t, n + 1)
    ensures t.keys == s.keys && t.now == s.now && t.stamp == None && t.owner == None && PcOf(t, 0).Returned?
  {
    hide IsRun, ValidSet, ValidateAgainst;
    var a := Goto(s, 0, Refused(token));
    Extend(v, s, SecondCheck(0), a);
    var b := Goto(a, 0, Fetching(token)).(fetches := a.fetches + [Fetch(a.now, None)]);
    Extend(v, a, CheckSpacing(0), b);
    var c := Goto(b, 0, Leaving(token, Err(JwksUnavailable)));
    Extend(v, b, FetchEnds(0, None), c);
    t := Goto(c, 0, Returned(token, Err(JwksUnavailable))).(owner := None);
    Extend(v, c, Leave(0), t);
  }

  /** Only installs are spaced: any number of failing fetches may begin at one instant. */
  lemma {:induction false} FailedFetchesAreNotSpaced(v: Verifier, keys: seq<Jwk>, token: Token, n: nat) returns (s: State)
    requires ValidSet(v, keys) && ValidateAgainst(v, token, keys, 0) == Err(UnknownKey)
    ensures ReachedAtOnce(v, s, n)
    ensures s.keys == keys && s.now == 0 && s.stamp == None && s.owner == None && (PcOf(s, 0).Idle? || PcOf(s, 0).Returned?)
  {
    hide ValidSet, ValidateAgainst;
    if n == 0 {
      s := State(keys, None, None, 0, map[], []);
      var none: seq<Event> := [];
      assert IsRun(v, [s], none) && [s][|none|] == s;
    } else {
      var before := FailedFetchesAreNotSpaced(v, keys, token, n - 1);
      var inside := RequestEnters(v, before, token, n - 1);
      s := FetchFails(v, inside, token, n - 1);
    }
  }

  // ----- waiting longer than the spacing

  /**
   * A run that ends in s. When marked, request 0 was seen waiting in it under a key set that was installed at time 0
   * and accepted its token, and has not been disturbed since.
   */
  ghost predicate Story(v: Verifier, s: State, token: Token, marked: bool) {
    exists states, events, i :: IsStory(v, states, events, i, s, token, marked)
  }

  ghost predicate IsStory(v: Verifier, states: seq<State>, events: seq<Event>, i: int, s: State, token: Token, marked: bool) {
    && IsRun(v, states, events) && states[|events|] == s && 0 <= i <= |events|
    && (marked ==> SeenWaiting(v, states[i], token) && Undisturbed(events, 0, i, |events|))
  }

  ghost predicate SeenWaiting(v: Verifier, s: State, token: Token) {
    PcOf(s, 0) == Waiting(token) && InstalledAt(s, 0, 0) && Verdict(v, s, token).Ok?
  }

  lemma Continue(v: Verifier, s: State, e: Event, t: State, token: Token, marked: bool)
    requires Story(v, s, token, marked) && Step(v, s, e, t)
    requires marked ==> e.Tick? || e.r != 0 || !(e.Call? || e.Cancel?)
    ensures Story(v, t, token, marked)
  {
    hide Initial, Step, SeenWaiting;
    var states, events, i :| IsStory(v, states, events, i, s, token, marked);
    var moreStates, moreEvents := states + [t], events + [e];
    forall j | 0 <= j < |moreEvents| ensures Step(v, moreStates[j], moreEvents[j], moreStates[j + 1]) {
      if j < |events| {
        assert moreStates[j] == states[j] && moreStates[j + 1] == states[j + 1] && moreEvents[j] == events[j];
      } else {
        assert moreStates[j] == s && moreStates[j + 1] == t && moreEvents[j] == e;
      }
    }
    assert IsStory(v, moreStates, moreEvents, i, t, token, marked);
  }

  lemma Mark(v: Verifier, s: State, token: Token)
    requires Story(v, s, token, false) && SeenWaiting(v, s, token)
    ensures Story(v, s, token, true)
  {
    hide IsRun, SeenWaiting;
    var states, events, i :| IsStory(v, states, events, i, s, token, false);
    assert IsStory(v, states, events, |events|, s, token, true);
  }

  /** A call for an unknown key, up to the queue. */
  lemma Queues(v: Verifier, s: State, r: Request, asked: Token, token: Token) returns (t: State)
    requires Story(v, s, token, false) && PcOf(s, r).Idle? && Verdict(v, s, asked) == Err(UnknownKey)
    ensures Story(v, t, token, false) && t == Goto(s, r, Waiting(asked))
  {
    hide Story, ValidSet, ValidateAgainst;
    var a := Goto(s, r, Begun(asked));
    Continue(v, s, Call(r, asked), a, token, false);
    t := Goto(a, r, Waiting(asked));
    Continue(v, a, FirstCheck(r), t, token, false);
    assert t == Goto(s, r, Waiting(asked));
  }

  /** A queued request takes the mutex and finds its key still unknown. */
  lemma IsRefused(v: Verifier, s: State, r: Request, asked: Token, token: Token, marked: bool) returns (t: State)
    requires Story(v, s, token, marked) && PcOf(s, r) == Waiting(asked) && s.owner == None
    requires Verdict(v, s, asked) == Err(UnknownKey)
    ensures Story(v, t, token, marked) && t == Goto(s, r, Refused(asked)).(owner := Some(r))
  {
    hide Story, ValidSet, ValidateAgainst;
    var a := Goto(s, r, Entered(asked)).(owner := Some(r));
    Continue(v, s, Enter(r), a, token, marked);
    t := Goto(a, r, Refused(asked));
    Continue(v, a, SecondCheck(r), t, token, marked);
    assert t == Goto(s, r, Refused(asked)).(owner := Some(r));
  }

  /** It may fetch, and installs what it fetched. */
  lemma InstallsFetched(v: Verifier, s: State, r: Request, asked: Token, body: seq<Jwk>, token: Token, marked: bool) returns (t: State)
    requires Story(v, s, token, marked) && PcOf(s, r) == Refused(asked) && !TooSoon(s) && ValidSet(v, body)
    ensures Story(v, t, token, marked)
    ensures t == Goto(s, r, Stamping(asked)).(keys := body, fetches := s.fetches + [Fetch(s.now, Some(s.now))])
  {
    hide Story, ValidSet, ValidateAgainst;
    var a := Goto(s, r, Fetching(asked)).(fetches := s.fetches + [Fetch(s.now, None)]);
    Continue(v, s, CheckSpacing(r), a, token, marked);
    var b := Goto(a, r, Installing(asked, body));
    Continue(v, a, FetchEnds(r, Some(body)), b, token, marked);
    t := Goto(b, r, Stamping(asked)).(keys := body, fetches := s.fetches + [Fetch(s.now, Some(s.now))]);
    Continue(v, b, Install(r), t, token, marked);
    assert t == Goto(s, r, Stamping(asked)).(keys := body, fetches := s.fetches + [Fetch(s.now, Some(s.now))]);
  }

  /** It stamps, checks a last time and gives the mutex back. */
  lemma Finishes(v: Verifier, s: State, r: Request, asked: Token, token: Token, marked: bool) returns (t: State)
    requires Story(v, s, token, marked) && PcOf(s, r) == Stamping(asked)
    ensures Story(v, t, token, marked)
    ensures t == Goto(s, r, Returned(asked, Verdict(v, s, asked))).(stamp := Some(s.now), owner := None)
  {
    hide Story, ValidSet, ValidateAgainst;
    var a := Goto(s, r, LastCheck(asked)).(stamp := Some(s.now));
    Continue(v, s, Stamp(r), a, token, marked);
    var answer := Verdict(v, s, asked);
    var b := Goto(a, r, Leaving(asked, answer));
    Continue(v, a, FinalCheck(r), b, token, marked);
    t := Goto(b, r, Returned(asked, answer)).(owner := None);
    Continue(v, b, Leave(r), t, token, marked);
    assert t == Goto(s, r, Returned(asked, answer)).(stamp := Some(s.now), owner := None);
  }

  /** Three key sets: the token's key appears in the second only, the other token's in none of the first two. */
  ghost predicate ComesAndGoes(v: Verifier, first: seq<Jwk>, second: seq<Jwk>, third: seq<Jwk>, token: Token, other: Token) {
    && ValidSet(v, first) && ValidSet(v, second) && ValidSet(v, third)
    && forall t ::
         && ValidateAgainst(v, token, first, t) == Err(UnknownKey) && ValidateAgainst(v, other, first, t) == Err(UnknownKey)
         && ValidateAgainst(v, token, second, t).Ok? && ValidateAgainst(v, other, second, t) == Err(UnknownKey)
         && ValidateAgainst(v, token, third, t) == Err(UnknownKey)
  }

  /** Sets of one key each, with rotating ids. */
  lemma KeysCanComeAndGo()
    ensures exists v, first, second, third, token, other :: ComesAndGoes(v, first, second, third, token, other)
  {
    var v := Verifier((key: Jwk) => true, (token: Token, key: Jwk, now: Time) => Some(Claims("", {})), {});
    var first, second, third := OneKey("a"), OneKey("b"), OneKey("c");
    var token, other := Token(Some(Header(Some("b"), RS256)), 0), Token(Some(Header(Some("d"), RS256)), 0);
    FoundInOne("a", "b");
    FoundInOne("a", "d");
    FoundInOne("b", "b");
    FoundInOne("b", "d");
    FoundInOne("c", "b");
    assert Usable(v, first[0]) && Usable(v, second[0]) && Usable(v, third[0]);
    assert ComesAndGoes(v, first, second, third, token, other);
  }

  function OneKey(kid: string): seq<Jwk> {
    [Jwk(Rsa, Some(RS256), Some(Signature), None, Some(kid), 0)]
  }

  lemma FoundInOne(kid: string, asked: string)
    ensures Find(OneKey(kid), asked) == if kid == asked then Some(OneKey(kid)[0]) else None
  {
    assert OneKey(kid)[1..] == [];
  }

  /** Requests 1, 2 and 0 queue in this order; 1 installs the second set. */
  lemma KeyComes(v: Verifier, first: seq<Jwk>, second: seq<Jwk>, third: seq<Jwk>, token: Token, other: Token) returns (t: State)
    requires ComesAndGoes(v, first, second, third, token, other)
    ensures Story(v, t, token, true) && t.keys == second && t.now == 0 && t.stamp == Some(0) && t.owner == None
    ensures PcOf(t, 0) == Waiting(token) && PcOf(t, 2) == Waiting(other)
  {
    hide ValidSet, ValidateAgainst, Story, IsStory;
    var s := State(first, None, None, 0, map[], []);
    StoryBegins(v, s, token);
    var a := Queues(v, s, 1, other, token);
    var b := Queues(v, a, 2, other, token);
    var c := Queues(v, b, 0, token, token);
    var d := IsRefused(v, c, 1, other, token, false);
    var e := InstallsFetched(v, d, 1, other, second, token, false);
    t := Finishes(v, e, 1, other, token, false);
    Mark(v, t, token);
  }

  lemma StoryBegins(v: Verifier, s: State, token: Token)
    requires Initial(v, s)
    ensures Story(v, s, token, false)
  {
    hide Initial, Step;
    var none: seq<Event> := [];
    assert IsStory(v, [s], none, 0, s, token, false);
  }

  /**
   * Beyond the thirty seconds the guarantee ends: a request that was seen waiting under a set that accepts its token
   * can find that a request ahead of it in the queue has installed yet another set, without its key.
   */
  lemma LongWaitCanMissTheKey(v: Verifier, first: seq<Jwk>, second: seq<Jwk>, third: seq<Jwk>, token: Token, other: Token)
    returns (t: State)
    requires ComesAndGoes(v, first, second, third, token, other)
    ensures Story(v, t, token, true) && PcOf(t, 0) == Leaving(token, Err(UnknownKey)) && t.now == SPACING
  {
    hide ValidSet, ValidateAgainst, Story;
    var s := KeyComes(v, first, second, third, token, other);
    var a := s.(now := SPACING);
    Continue(v, s, Tick(SPACING), a, token, true);
    var b := IsRefused(v, a, 2, other, token, true);
    var c := InstallsFetched(v, b, 2, other, third, token, true);
    var d := Finishes(v, c, 2, other, token, true);
    var e := IsRefused(v, d, 0, token, token, true);
    t := Goto(e, 0, Leaving(token, Err(UnknownKey)));
    Continue(v, e, CheckSpacing(0), t, token, true);
  }
}
