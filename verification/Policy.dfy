/** The signed policy store: a high-water generation, the desired, effective and rollback
    policies, and the features confirmed active. */
module SignedPolicy {
  import opened Common

  datatype Feature =
    | Process | Network | Dns | FileIntegrity | Registry | Powershell | Authentication | Persistence | MemoryInventory

  const AllFeatures: set<Feature> :=
    {Process, Network, Dns, FileIntegrity, Registry, Powershell, Authentication, Persistence, MemoryInventory}

  datatype Limits = Limits(intervalMs: nat, batchEvents: nat, payloadBytes: nat, samplingPerMille: nat)

  datatype Policy = Policy(generation: nat, digest: string, features: set<Feature>, limits: Limits, issued: nat,
                           expires: nat)

  const MAX_LIFETIME_MS: nat := 30 * 24 * 60 * 60 * 1000
  const MAX_ISSUE_SKEW_MS: nat := 300000

  datatype Error =
    | BadEnvelope | BadLifetime | IssuedInFuture | Expired
    | NoPolicy | HighWaterMismatch | Replay | Fork | Weakening | SaveFailed
    | NoRollbackTarget | RollbackInvalid | RollbackDeactivates | StaleConfirmation | BadFeatureList
    | EffectiveNewerThanDesired | ActiveFeatureExcluded

  /** Opening an envelope against the fixed trust set: its signature, shape and bounds hold and this
      is the policy inside, or it is refused. */
  type Opener = string -> Option<Policy>

  function Verify(open: Opener, raw: string, now: nat, checkExpiry: bool): Result<Policy, Error> {
    if raw == "" || open(raw).None? then Failure(BadEnvelope)
    else
      var p := open(raw).value;
      if p.generation == 0 || p.issued == 0 || p.expires <= p.issued || p.expires - p.issued > MAX_LIFETIME_MS
      then Failure(BadLifetime)
      else if p.issued > now && p.issued - now > MAX_ISSUE_SKEW_MS then Failure(IssuedInFuture)
      else if checkExpiry && now >= p.expires then Failure(Expired)
      else Success(p)
  }

  /** `next` gives up something `prior` provides. */
  predicate Weakens(prior: Policy, next: Policy) {
    || !(prior.features <= next.features)
    || next.limits.samplingPerMille < prior.limits.samplingPerMille
    || next.limits.intervalMs > prior.limits.intervalMs
    || next.limits.batchEvents < prior.limits.batchEvents
    || next.limits.payloadBytes < prior.limits.payloadBytes
  }

  /** Everything `prior` collects is still collected: no feature is dropped, nothing is sampled less or less often,
      and no ceiling is lower. */
  ghost predicate Upholds(prior: Policy, next: Policy) {
    && (forall f :: f in prior.features ==> f in next.features)
    && prior.limits.samplingPerMille <= next.limits.samplingPerMille
    && next.limits.intervalMs <= prior.limits.intervalMs
    && prior.limits.batchEvents <= next.limits.batchEvents && prior.limits.payloadBytes <= next.limits.payloadBytes
  }

  lemma WeakensMeans(prior: Policy, next: Policy)
    ensures Weakens(prior, next) <==> !Upholds(prior, next)
  {
  }

  ghost predicate SameStrength(a: Policy, b: Policy) {
    a.features == b.features && a.limits == b.limits
  }

  lemma EqualStrength(a: Policy, b: Policy)
    ensures Upholds(a, b) && Upholds(b, a) <==> SameStrength(a, b)
  {
  }

  lemma UpholdsTransitive(a: Policy, b: Policy, c: Policy)
    requires Upholds(a, b) && Upholds(b, c)
    ensures Upholds(a, c)
  {
  }

  datatype State =
    | Absent
    | Present(high: nat, digest: string, desired: string, effective: string, rollback: string, active: set<Feature>,
              rolled: bool)

  /** Replacing the state file either takes effect, does not, or takes effect but is reported as
      failed because its final flush could not be confirmed. */
  datatype Save = Saved | NotSaved | VisibleUnconfirmed

  // ----- Reporting -----

  datatype Label = Disabled | Active | PendingStart | Unsupported | Unauthorized | PolicyExpired

  datatype FeatureState = FeatureState(desired: bool, effective: bool, status: Label)

  datatype Snapshot = Snapshot(authorized: bool, expired: bool, rolledBack: bool, desiredGeneration: nat,
                               effectiveGeneration: nat,
                               highest: nat, features: map<Feature, FeatureState>)

  function Statuses(desired: Policy, effective: Policy, active: set<Feature>,
                    caps: set<Feature>): map<Feature, FeatureState> {
    map f | f in AllFeatures ::
      var d := f in desired.features;
      var e := d && f in caps && f in active && f in effective.features;
      var status := if !d then Disabled else if f !in caps then Unsupported else if e then Active else PendingStart;
      FeatureState(d, e, status)
  }

  function AllExpired(desired: Policy, onlyDesired: bool, caps: set<Feature>): map<Feature, FeatureState> {
    map f | f in AllFeatures ::
      var d := f in desired.features;
      FeatureState(d, false, if d || !onlyDesired then PolicyExpired else Disabled)
  }

  function SnapshotOf(open: Opener, s: State, now: nat, caps: set<Feature>): Result<Snapshot, Error> {
    match s
    case Absent =>
      var none := map f | f in AllFeatures :: FeatureState(false, false, Unauthorized);
      Success(Snapshot(false, false, false, 0, 0, 0, none))
    case Present(high, digest, desired, effective, rollback, active, rolled) =>
      match Verify(open, desired, now, false)
      case Failure(error) => Failure(error)
      case Success(d) =>
        if d.generation != high || d.digest != digest then Failure(HighWaterMismatch)
        else if now >= d.expires then
          Success(Snapshot(false, true, false, d.generation, 0, high, AllExpired(d, false, caps)))
        else
          match Verify(open, effective, now, false)
          case Failure(error) => Failure(error)
          case Success(e) =>
            if e.generation > d.generation then Failure(EffectiveNewerThanDesired)
            else if !(active <= e.features) then Failure(ActiveFeatureExcluded)
            else if now >= e.expires then
              Success(Snapshot(true, false, rolled, d.generation, e.generation, high, AllExpired(d, true, caps)))
            else
              Success(Snapshot(true, false, rolled, d.generation, e.generation, high, Statuses(d, e, active, caps)))
  }

  // ----- What every reachable state satisfies -----

  ghost predicate Opens(open: Opener, raw: string, p: Policy) {
    && raw != "" && open(raw) == Some(p)
    && p.generation > 0 && 0 < p.issued < p.expires <= p.issued + 2_592_000_000
  }

  /** The envelope opens to a policy that was not issued more than five minutes from now and, if that is
      asked, has not expired. */
  ghost predicate Admits(open: Opener, raw: string, now: nat, checkExpiry: bool) {
    && open(raw).Some? && Opens(open, raw, open(raw).value) && open(raw).value.issued <= now + 300_000
    && (checkExpiry ==> now < open(raw).value.expires)
  }

  lemma VerifyMeans(open: Opener, raw: string, now: nat, checkExpiry: bool)
    ensures var r := Verify(open, raw, now, checkExpiry);
      && (r.Success? <==> Admits(open, raw, now, checkExpiry)) && (r.Success? ==> r.value == open(raw).value)
      && (r.Failure? ==> r.error in {BadEnvelope, BadLifetime, IssuedInFuture, Expired})
  {
  }

  /** The effective policy is as strong as the desired one; before a rollback it is the desired one
      and the rollback target is an older policy that is not stronger, after a rollback the
      rollback slot holds the desired one. */
  ghost predicate Consistent(open: Opener, s: State) {
    s.Present? ==>
      && open(s.desired).Some? && open(s.effective).Some?
      && var d, e := open(s.desired).value, open(s.effective).value;
        && Opens(open, s.desired, d) && Opens(open, s.effective, e)
        && s.high == d.generation && s.digest == d.digest
        && e.generation <= d.generation && SameStrength(d, e) && s.active <= e.features
        && (!s.rolled ==> s.effective == s.desired && (s.rollback != "" ==> OlderAndNotStronger(open, s.rollback, e)))
        && (s.rolled ==> s.rollback == s.desired && e.generation < d.generation)
  }

  ghost predicate OlderAndNotStronger(open: Opener, raw: string, e: Policy) {
    && open(raw).Some? && Opens(open, raw, open(raw).value)
    && open(raw).value.generation < e.generation && Upholds(open(raw).value, e)
  }

  ghost predicate ActivationStep(open: Opener, s: State, t: State) {
    && t.Present? && open(t.desired).Some? && Opens(open, t.desired, open(t.desired).value)
    && t.effective == t.desired && t.high == open(t.desired).value.generation
    && t.digest == open(t.desired).value.digest && !t.rolled
    && t.rollback == (if s.Present? then s.effective else "") && t.active == (if s.Present? then s.active else {})
    && (s.Present? ==>
          t.high > s.high && open(s.desired).Some? && Upholds(open(s.desired).value, open(t.desired).value))
  }

  ghost predicate RollbackStep(open: Opener, s: State, t: State) {
    && s.Present? && s.rollback != "" && t == s.(effective := s.rollback, rollback := s.effective, rolled := true)
    && open(s.rollback).Some? && open(s.effective).Some? && Opens(open, s.rollback, open(s.rollback).value)
    && open(s.rollback).value.generation < open(s.effective).value.generation
    && Upholds(open(s.effective).value, open(s.rollback).value) && s.active <= open(s.rollback).value.features
  }

  ghost predicate ConfirmStep(open: Opener, s: State, t: State) {
    && s.Present? && t.Present? && t == s.(active := t.active)
    && open(s.desired).Some? && open(s.effective).Some?
    && t.active <= open(s.desired).value.features * open(s.effective).value.features
  }

  ghost predicate Step(open: Opener, s: State, t: State) {
    t == s || ActivationStep(open, s, t) || RollbackStep(open, s, t) || ConfirmStep(open, s, t)
  }

  lemma StepKeepsConsistent(open: Opener, s: State, t: State)
    requires Consistent(open, s) && Step(open, s, t)
    ensures Consistent(open, t)
  {
    if s.Present? {
      var d, e := open(s.desired).value, open(s.effective).value;
      EqualStrength(d, e);
      if ActivationStep(open, s, t) {
        UpholdsTransitive(e, d, open(t.desired).value);
      } else if RollbackStep(open, s, t) {
        EqualStrength(open(s.rollback).value, e);
      }
    }
  }

  /** A rollback happens only between policies of equal strength, and never from a state that is
      already rolled back. */
  lemma RollbackChangesNoStrength(open: Opener, s: State, t: State)
    requires Consistent(open, s) && RollbackStep(open, s, t)
    ensures !s.rolled && t.rolled && SameStrength(open(s.rollback).value, open(s.effective).value)
  {
    EqualStrength(open(s.rollback).value, open(s.effective).value);
  }

  // ----- Whole runs -----

  ghost predicate IsRun(open: Opener, run: seq<State>) {
    && |run| > 0 && run[0] == Absent
    && forall i: nat :: i + 1 < |run| ==> StepAt(open, run, i)
  }

  ghost predicate StepAt(open: Opener, run: seq<State>, i: nat)
    requires i + 1 < |run|
  {
    Step(open, run[i], run[i + 1])
  }

  lemma {:induction false} RunConsistent(open: Opener, run: seq<State>, i: nat)
    requires IsRun(open, run) && i < |run|
    ensures Consistent(open, run[i])
  {
    if i > 0 {
      RunConsistent(open, run, i - 1);
      assert StepAt(open, run, i - 1);
      StepKeepsConsistent(open, run[i - 1], run[i]);
    }
  }

  /** Over any run the high-water mark never falls, a generation never has two digests, and the
      desired policy never gets weaker. */
  lemma {:induction false} RunMonotone(open: Opener, run: seq<State>, i: nat, j: nat)
    requires IsRun(open, run) && i <= j < |run| && run[i].Present?
    ensures run[j].Present? && run[i].high <= run[j].high
    ensures run[i].high == run[j].high ==> run[i].digest == run[j].digest && run[i].desired == run[j].desired
    ensures open(run[i].desired).Some? && open(run[j].desired).Some?
    ensures Upholds(open(run[i].desired).value, open(run[j].desired).value)
  {
    hide Consistent;
    DesiredOpens(open, run, i);
    DesiredOpens(open, run, j);
    if i < j {
      RunMonotone(open, run, i, j - 1);
      assert StepAt(open, run, j - 1);
    }
  }

  lemma DesiredOpens(open: Opener, run: seq<State>, i: nat)
    requires IsRun(open, run) && i < |run|
    ensures run[i].Present? ==> open(run[i].desired).Some? && Opens(open, run[i].desired, open(run[i].desired).value)
  {
    RunConsistent(open, run, i);
  }

  /** Between two rollbacks of a run there is an activation: at most one rollback per activation. */
  lemma RollbackOncePerActivation(open: Opener, run: seq<State>, i: nat, j: nat)
    requires IsRun(open, run) && i < j && j + 1 < |run|
    requires RollbackStep(open, run[i], run[i + 1]) && RollbackStep(open, run[j], run[j + 1])
    ensures exists k: nat :: i < k < j && ActivationStep(open, run[k], run[k + 1])
  {
    hide Consistent;
    RunConsistent(open, run, i);
    RunConsistent(open, run, j);
    RollbackChangesNoStrength(open, run[i], run[i + 1]);
    RollbackChangesNoStrength(open, run[j], run[j + 1]);
    ghost var k := FirstReset(open, run, i + 1, j);
  }

  /** A rolled-back state stays rolled back until an activation. */
  lemma {:induction false} FirstReset(open: Opener, run: seq<State>, i: nat, j: nat) returns (k: nat)
    requires IsRun(open, run) && i <= j < |run| && run[i].Present? && run[i].rolled && run[j].Present? && !run[j].rolled
    ensures i <= k < j && ActivationStep(open, run[k], run[k + 1])
    decreases j - i
  {
    hide ConfirmStep, ActivationStep;
    assert StepAt(open, run, i);
    if ActivationStep(open, run[i], run[i + 1]) {
      k := i;
    } else {
      ConfirmKeepsRolled(open, run[i], run[i + 1]);
      k := FirstReset(open, run, i + 1, j);
    }
  }

  lemma ConfirmKeepsRolled(open: Opener, s: State, t: State)
    ensures ConfirmStep(open, s, t) ==> t.Present? && t.rolled == s.rolled
  {
  }

  /** Whatever the stored record holds, a report is given exactly when it opens to what it claims: the desired policy
      is the one of the high-water mark, and unless that has expired the effective one is no newer and allows every
      feature recorded as active. */
  lemma SnapshotExactly(open: Opener, s: State, now: nat, caps: set<Feature>)
    ensures s.Absent? ==> SnapshotOf(open, s, now, caps).Success?
    ensures s.Present? ==> (SnapshotOf(open, s, now, caps).Success? <==>
      && Admits(open, s.desired, now, false)
      && open(s.desired).value.generation == s.high && open(s.desired).value.digest == s.digest
      && (now < open(s.desired).value.expires ==>
          && Admits(open, s.effective, now, false)
          && open(s.effective).value.generation <= open(s.desired).value.generation
          && s.active <= open(s.effective).value.features))
  {
    hide Verify;
    if s.Present? {
      VerifyMeans(open, s.desired, now, false);
      VerifyMeans(open, s.effective, now, false);
    }
  }

  /** In a consistent state the report cannot fail for an inconsistency: it is refused exactly when the clock
      runs more than five minutes before the issue of a policy it has to look at. */
  lemma SnapshotNeverInconsistent(open: Opener, s: State, now: nat, caps: set<Feature>)
    requires Consistent(open, s)
    ensures var r := SnapshotOf(open, s, now, caps); r.Failure? ==> r.error == IssuedInFuture
    ensures SnapshotOf(open, s, now, caps).Failure? <==>
      && s.Present?
      && (|| open(s.desired).value.issued > now + 300_000
          || (now < open(s.desired).value.expires && open(s.effective).value.issued > now + 300_000))
  {
  }

  /** The head of a report: a desired policy that has not expired authorizes it, and the generations are those of
      the policies it speaks of. */
  lemma SnapshotHead(open: Opener, s: State, now: nat, caps: set<Feature>)
    requires Consistent(open, s) && SnapshotOf(open, s, now, caps).Success?
    ensures var r, live := SnapshotOf(open, s, now, caps).value, s.Present? && now < open(s.desired).value.expires;
      && r.authorized == live && (r.expired <==> s.Present? && !live) && (r.rolledBack <==> live && s.rolled)
      && r.highest == (if s.Present? then s.high else 0)
      && r.desiredGeneration == (if s.Present? then open(s.desired).value.generation else 0)
      && r.effectiveGeneration == (if live then open(s.effective).value.generation else 0)
  {
  }

  /** The label of every feature, told from the state, the clock and the capabilities. */
  lemma SnapshotLabels(open: Opener, s: State, now: nat, caps: set<Feature>, f: Feature)
    requires Consistent(open, s) && SnapshotOf(open, s, now, caps).Success?
    ensures f in SnapshotOf(open, s, now, caps).value.features
    ensures var told := SnapshotOf(open, s, now, caps).value.features[f].status;
      if s.Absent? then told == Unauthorized else
      var d, e := open(s.desired).value, open(s.effective).value;
      && (told == PolicyExpired <==> now >= d.expires || (f in d.features && now >= e.expires))
      && (told == Disabled <==> now < d.expires && f !in d.features)
      && (told == Unsupported <==> now < d.expires && now < e.expires && f in d.features && f !in caps)
      && (told == PendingStart <==>
          now < d.expires && now < e.expires && f in d.features && f in caps && f !in s.active)
      && (told == Active <==> now < d.expires && now < e.expires && f in s.active && f in caps)
  {
    assert f in AllFeatures;
  }

  /** A feature reported effective is desired, supported, confirmed, and allowed by an unexpired
      effective policy. */
  lemma EffectiveIsAuthorized(open: Opener, s: State, now: nat, caps: set<Feature>, f: Feature)
    requires Consistent(open, s) && SnapshotOf(open, s, now, caps).Success? && f in AllFeatures
    ensures var features := SnapshotOf(open, s, now, caps).value.features;
      f in features && (features[f].effective <==>
        && s.Present? && f in s.active && f in caps
        && now < open(s.desired).value.expires && now < open(s.effective).value.expires)
      && (features[f].effective ==> f in open(s.desired).value.features && f in open(s.effective).value.features)
      && (features[f].desired <==> s.Present? && f in open(s.desired).value.features)
      && (features[f].status == Active <==> features[f].effective)
  {
  }

  // ----- The store -----

  /** What a call reports. */
  datatype Outcome = Outcome(accepted: bool, changed: bool, report: Result<Snapshot, Error>)

  function Refused(error: Error): Outcome {
    Outcome(false, false, Failure(error))
  }

  /** A newer policy that gives nothing up, with both policies verifiable now. */
  ghost predicate MayActivate(open: Opener, s: State, raw: string, now: nat) {
    && Admits(open, raw, now, true)
    && (s.Present? ==> Admits(open, s.desired, now, false) && open(raw).value.generation > s.high)
    && (s.Present? ==> Upholds(open(s.desired).value, open(raw).value))
  }

  ghost predicate IsCurrent(open: Opener, s: State, raw: string, now: nat) {
    && s.Present? && Admits(open, raw, now, true) && Admits(open, s.desired, now, false)
    && open(raw).value.generation == s.high && open(raw).value.digest == s.digest
  }

  ghost function Activated(open: Opener, s: State, raw: string): State
    requires open(raw).Some?
  {
    Present(open(raw).value.generation, open(raw).value.digest, raw, raw,
            if s.Present? then s.effective else "", if s.Present? then s.active else {}, false)
  }

  /** There is a previous policy of exactly the same strength, not rolled back to yet, and all
      three policies verify now. */
  ghost predicate MayRollBack(open: Opener, s: State, now: nat) {
    && s.Present? && s.rollback != "" && !s.rolled
    && Admits(open, s.desired, now, false) && Admits(open, s.effective, now, false)
    && Admits(open, s.rollback, now, true)
    && SameStrength(open(s.rollback).value, open(s.effective).value)
  }

  /** The list is current, names known features once each, and every one is supported and enabled
      in both policies, which verify now. */
  ghost predicate MayConfirm(open: Opener, s: State, generation: nat, actual: seq<Option<Feature>>, now: nat,
                             caps: set<Feature>) {
    && s.Present? && Admits(open, s.desired, now, true) && Admits(open, s.effective, now, true)
    && generation == s.high
    && var allowed := caps * open(s.desired).value.features * open(s.effective).value.features;
      forall i: nat :: i < |actual| ==> Confirmable(actual, i, allowed)
  }

  ghost predicate Confirmable(actual: seq<Option<Feature>>, i: nat, allowed: set<Feature>)
    requires i < |actual|
  {
    actual[i].Some? && actual[i].value in allowed && actual[i].value !in Listed(actual[..i])
  }

  /** A confirmation may take a feature out of the active set, but never silently: a feature removed
      by an accepted confirmation stays desired, and every later report of the state says that it
      is waiting to start, unsupported or expired, never that it is disabled or active. */
  lemma RemovedStaysDesired(open: Opener, s: State, generation: nat, actual: seq<Option<Feature>>, now: nat,
                            caps: set<Feature>,
                            f: Feature, later: nat, laterCaps: set<Feature>)
    requires Consistent(open, s) && MayConfirm(open, s, generation, actual, now, caps)
    requires f in AllFeatures && f in s.active && f !in Listed(actual)
    requires SnapshotOf(open, s.(active := Listed(actual)), later, laterCaps).Success?
    ensures var report := SnapshotOf(open, s.(active := Listed(actual)), later, laterCaps).value.features;
      && f in report && report[f].desired && !report[f].effective
      && report[f].status in {PendingStart, Unsupported, PolicyExpired}
      && (report[f].status == Unsupported ==> f !in laterCaps)
      && (report[f].status == PendingStart ==> f in laterCaps)
  {
  }

  lemma RunExtends(open: Opener, run: seq<State>, t: State)
    requires IsRun(open, run) && Step(open, run[|run| - 1], t)
    ensures IsRun(open, run + [t])
  {
    hide Step;
    var more := run + [t];
    forall i: nat | i + 1 < |more| ensures StepAt(open, more, i) {
      if i + 1 < |run| { assert StepAt(open, run, i); }
    }
  }

  /** If the store rolled back at both places of its run, it activated a policy in between. */
  ghost predicate RolledBackOnce(open: Opener, run: seq<State>, i: nat, j: nat)
    requires i < j && j + 1 < |run|
  {
    RollbackStep(open, run[i], run[i + 1]) && RollbackStep(open, run[j], run[j + 1]) ==>
      exists k: nat :: i < k < j && ActivationStep(open, run[k], run[k + 1])
  }

  class PolicyStore {
    const open: Opener
    var state: State
    /** Every state the store has had, from no policy at all. */
    ghost var run: seq<State>

    ghost predicate Valid()
      reads this
    {
      Consistent(open, state) && IsRun(open, run) && run[|run| - 1] == state
    }

    constructor (open: Opener)
      ensures Valid() && state == Absent && run == [Absent] && this.open == open
    {
      this.open, state, run := open, Absent, [Absent];
    }

    /** Replaces the durable state record by that of the next step. */
    method SaveState(next: State, save: Save) returns (ok: bool)
      requires Valid() && Step(open, state, next)
      modifies this
      ensures Valid() && state == (if save == NotSaved then old(state) else next)
      ensures run == if save == NotSaved then old(run) else old(run) + [next]
      ensures ok <==> save == Saved
    {
      hide Step, Consistent, IsRun;
      StepKeepsConsistent(open, state, next);
      RunExtends(open, run, next);
      if save != NotSaved {
        state := next;
        run := run + [next];
      }
      return save == Saved;
    }

    /** Accepts a newer policy that weakens nothing. A repeat of the current one changes nothing;
        an older one, a fork or a weakening is refused. */
    method Activate(raw: string, now: nat, caps: set<Feature>, save: Save) returns (r: Outcome)
      requires Valid()
      modifies this
      ensures Valid() && Step(open, old(state), state) && (run == old(run) || run == old(run) + [state])
      ensures MayActivate(open, old(state), raw, now) && save != NotSaved ==>
        open(raw).Some? && state == Activated(open, old(state), raw)
      ensures !(MayActivate(open, old(state), raw, now) && save != NotSaved) ==> state == old(state)
      ensures r.changed <==> MayActivate(open, old(state), raw, now) && save == Saved
      ensures r.accepted <==> r.changed || IsCurrent(open, old(state), raw, now)
      ensures r.accepted ==> r.report == SnapshotOf(open, state, now, caps)
      ensures r.accepted || state != old(state) ==> open(raw).Some? && now < open(raw).value.expires
      ensures r.report == Failure(Replay) || r.report == Failure(Fork) || r.report == Failure(Weakening) ==>
        old(state).Present? && open(raw).Some? && open(old(state).desired).Some?
      ensures old(state).Present? && Admits(open, raw, now, true) && Admits(open, old(state).desired, now, false) ==>
        && (r.report == Failure(Replay) <==> open(raw).value.generation < old(state).high)
        && (r.report == Failure(Fork) <==>
            open(raw).value.generation == old(state).high && open(raw).value.digest != old(state).digest)
        && (r.report == Failure(Weakening) <==>
            && open(raw).value.generation > old(state).high
            && !Upholds(open(old(state).desired).value, open(raw).value))
    {
      hide Verify, Weakens, SnapshotOf;
      VerifyMeans(open, raw, now, true);
      if state.Present? { VerifyMeans(open, state.desired, now, false); }
      var verified := Verify(open, raw, now, true);
      if verified.Failure? { return Refused(verified.error); }
      var next := verified.value;
      if state.Present? {
        var desired := Verify(open, state.desired, now, false);
        if desired.Failure? || desired.value.generation != state.high || desired.value.digest != state.digest {
          return Refused(if desired.Failure? then desired.error else HighWaterMismatch);
        }
        if next.generation < state.high { return Refused(Replay); }
        if next.generation == state.high {
          if next.digest != state.digest { return Refused(Fork); }
          SnapshotNeverInconsistent(open, state, now, caps);
          return Outcome(true, false, SnapshotOf(open, state, now, caps));
        }
        WeakensMeans(desired.value, next);
        if Weakens(desired.value, next) { return Refused(Weakening); }
      }
      var t := Present(next.generation, next.digest, raw, raw,
                       if state.Present? then state.effective else "",
                       if state.Present? then state.active else {}, false);
      assert ActivationStep(open, state, t);
      var ok := SaveState(t, save);
      if !ok { return Refused(SaveFailed); }
      SnapshotNeverInconsistent(open, t, now, caps);
      return Outcome(true, true, SnapshotOf(open, t, now, caps));
    }

    /** Returns to the previous policy. Whatever the individual checks say, it succeeds exactly once
        per activation and only when the previous policy is equally strong. */
    method Rollback(now: nat, caps: set<Feature>, save: Save) returns (r: Outcome)
      requires Valid()
      modifies this
      ensures Valid() && Step(open, old(state), state) && (run == old(run) || run == old(run) + [state])
      ensures MayRollBack(open, old(state), now) && save != NotSaved ==>
        state == old(state).(effective := old(state).rollback, rollback := old(state).effective, rolled := true)
      ensures !(MayRollBack(open, old(state), now) && save != NotSaved) ==> state == old(state)
      ensures r.changed == r.accepted && (r.changed <==> MayRollBack(open, old(state), now) && save == Saved)
      ensures r.accepted ==> r.report == SnapshotOf(open, state, now, caps)
      ensures state != old(state) ==>
        state.Present? && open(state.effective).Some? && now < open(state.effective).value.expires
    {
      hide Verify, Weakens, SnapshotOf;
      if state.Present? {
        VerifyMeans(open, state.desired, now, false);
        VerifyMeans(open, state.effective, now, false);
        VerifyMeans(open, state.rollback, now, true);
      }
      if state.Absent? || state.rollback == "" { return Refused(NoRollbackTarget); }
      var d, target := Verify(open, state.desired, now, false), Verify(open, state.rollback, now, true);
      var current := Verify(open, state.effective, now, false);
      if d.Failure? { return Refused(d.error); }
      if target.Failure? { return Refused(target.error); }
      if current.Failure? { return Refused(current.error); }
      EqualStrength(target.value, current.value);
      WeakensMeans(current.value, target.value);
      if d.value.generation != state.high || d.value.digest != state.digest
         || target.value.generation >= current.value.generation
      {
        return Refused(RollbackInvalid);
      }
      if Weakens(current.value, target.value) || !(state.active <= target.value.features) {
        return Refused(if Weakens(current.value, target.value) then Weakening else RollbackDeactivates);
      }
      var t := state.(effective := state.rollback, rollback := state.effective, rolled := true);
      assert RollbackStep(open, state, t);
      var ok := SaveState(t, save);
      if !ok { return Refused(SaveFailed); }
      return Outcome(true, true, SnapshotOf(open, t, now, caps));
    }

    /** Records which features really run. Each must be known, listed once, supported and enabled in
        both the desired and the effective policy. */
    method ConfirmEffective(generation: nat, actual: seq<Option<Feature>>, now: nat, caps: set<Feature>, save: Save)
      returns (r: Outcome)
      requires Valid()
      modifies this
      ensures Valid() && Step(open, old(state), state) && (run == old(run) || run == old(run) + [state])
      ensures r.changed == r.accepted
      ensures (r.changed <==> MayConfirm(open, old(state), generation, actual, now, caps) && save == Saved)
      ensures MayConfirm(open, old(state), generation, actual, now, caps) && save != NotSaved ==>
        old(state).Present? && state == old(state).(active := Listed(actual))
      ensures state == old(state) || (old(state).Present? && state == old(state).(active := Listed(actual)))
      ensures r.accepted ==> r.report == SnapshotOf(open, state, now, caps)
      ensures r.accepted || state != old(state) ==>
        && old(state).Present? && open(old(state).desired).Some? && now < open(old(state).desired).value.expires
        && open(old(state).effective).Some? && now < open(old(state).effective).value.expires
    {
      hide Verify, SnapshotOf;
      if state.Present? {
        VerifyMeans(open, state.desired, now, true);
        VerifyMeans(open, state.effective, now, true);
      }
      if state.Absent? { return Refused(NoPolicy); }
      var d, e := Verify(open, state.desired, now, true), Verify(open, state.effective, now, true);
      if d.Failure? { return Refused(d.error); }
      if e.Failure? { return Refused(e.error); }
      if d.value.generation != state.high || d.value.digest != state.digest || generation != state.high {
        return Refused(StaleConfirmation);
      }
      var active: set<Feature> := {};
      ghost var allowed := caps * d.value.features * e.value.features;
      for i := 0 to |actual|
        modifies {}
        invariant forall k: nat :: k < i ==> Confirmable(actual, k, allowed)
        invariant active == Listed(actual[..i]) && active <= caps && active <= d.value.features
        invariant active <= e.value.features
      {
        assert actual[..i + 1] == actual[..i] + [actual[i]];
        if actual[i].None? || actual[i].value in active ||
           actual[i].value !in caps || actual[i].value !in d.value.features || actual[i].value !in e.value.features {
          assert !Confirmable(actual, i, allowed);
          return Refused(BadFeatureList);
        }
        active := active + {actual[i].value};
      }
      assert actual[..|actual|] == actual;
      var t := state.(active := active);
      assert ConfirmStep(open, state, t);
      var ok := SaveState(t, save);
      if !ok { return Refused(SaveFailed); }
      return Outcome(true, true, SnapshotOf(open, t, now, caps));
    }

    /** Reports the current state; only a clock before the policies' issue time can prevent that. */
    method Current(now: nat, caps: set<Feature>) returns (r: Result<Snapshot, Error>)
      requires Valid()
      ensures r == SnapshotOf(open, state, now, caps)
      ensures r.Failure? ==> r.error == IssuedInFuture
    {
      SnapshotNeverInconsistent(open, state, now, caps);
      return SnapshotOf(open, state, now, caps);
    }

    /** Any sequence of calls with any envelopes, clocks, capabilities and save outcomes: the high-water
        generation never falls, no later desired policy weakens an earlier one, one generation names
        one policy, and between two rollbacks lies an activation. */
    method AnyRun(steps: nat)
      requires Valid()
      modifies this
      ensures Valid() && old(run) <= run
      ensures old(state).Present? ==> state.Present? && old(state).high <= state.high
      ensures old(state).Present? && state.Present? && old(state).high == state.high ==>
        old(state).digest == state.digest && old(state).desired == state.desired
      ensures old(state).Present? && state.Present? && open(old(state).desired).Some? && open(state.desired).Some? ==>
        Upholds(open(old(state).desired).value, open(state.desired).value)
      ensures forall i: nat, j: nat :: i < j && j + 1 < |run| ==> RolledBackOnce(open, run, i, j)
    {
      hide Step, Consistent, MayActivate, MayRollBack, MayConfirm, IsCurrent, Activated, RollbackStep,
        ActivationStep, Weakens;
      for i := 0 to steps
        invariant Valid() && old(run) <= run
      {
        var operation: nat, now: nat, generation: nat, caps: set<Feature>, save: Save := *, *, *, *, *;
        var raw: string, actual: seq<Option<Feature>> := *, *;
        if operation == 0 {
          var _ := Activate(raw, now, caps, save);
        } else if operation == 1 {
          var _ := Rollback(now, caps, save);
        } else {
          var _ := ConfirmEffective(generation, actual, now, caps, save);
        }
      }
      if old(state).Present? { RunMonotone(open, run, |old(run)| - 1, |run| - 1); }
      forall i: nat, j: nat | i < j && j + 1 < |run| ensures RolledBackOnce(open, run, i, j) {
        if RollbackStep(open, run[i], run[i + 1]) && RollbackStep(open, run[j], run[j + 1]) {
          RollbackOncePerActivation(open, run, i, j);
        }
      }
    }
  }

  ghost function Listed(names: seq<Option<Feature>>): set<Feature> {
    set i | 0 <= i < |names| && names[i].Some? :: names[i].value
  }
}
