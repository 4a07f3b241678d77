/** CryptAuth enrollment decisions: when an enrollment is still valid, which
    scheduling strategy a fresh start uses, which invocation reason an
    attempt carries, and how the three persisted preferences change when an
    attempt finishes.

    The sync scheduler is abstract: the manager tells it to start or to force
    a sync and reports completion of the request it handed out (the calls are
    returned as a trace), and the scheduler's current strategy, state and
    time-to-next-sync are parameters. The clock is the parameter `now`, a
    base::Time as modelled in BaseTime. */
module CryptAuthEnrollment {
  import opened Wrappers
  import BaseTime

  /** An enrollment older than this is no longer valid. */
  const ValidEnrollmentPeriodDays: int := 45
  /** The normal period between successful enrollments. */
  const EnrollmentRefreshPeriodDays: int := 30
  /** Base period between attempts while recovering from a failure. */
  const EnrollmentBaseRecoveryPeriodMinutes: int := 10
  /** The jitter bound 0.2, kept as the exact fraction 1/5. */
  const EnrollmentMaxJitterNumerator: int := 1
  const EnrollmentMaxJitterDenominator: int := 5

  const ValidEnrollmentPeriod: int := ValidEnrollmentPeriodDays * BaseTime.SecondsPerDay

  /** Why an enrollment attempt happens (the cryptauth protocol enum). */
  datatype InvocationReason =
    | Unknown
    | Initialization
    | Periodic
    | SlowPeriodic
    | FastPeriodic
    | Expiration
    | FailureRecovery
    | NewAccount
    | ChangedAccount
    | FeatureToggled
    | ServerInitiated
    | AddressChange
    | SoftwareUpdate
    | Manual

  /** The integer under which a reason is persisted. */
  function ReasonCode(r: InvocationReason): int {
    match r
    case Unknown => 0
    case Initialization => 1
    case Periodic => 2
    case SlowPeriodic => 3
    case FastPeriodic => 4
    case Expiration => 5
    case FailureRecovery => 6
    case NewAccount => 7
    case ChangedAccount => 8
    case FeatureToggled => 9
    case ServerInitiated => 10
    case AddressChange => 11
    case SoftwareUpdate => 12
    case Manual => 13
  }

  /** Reads a persisted integer back as a reason; None for an integer that
      names no reason. */
  function ReasonFromCode(n: int): (r: Option<InvocationReason>)
    ensures r.Some? <==> 0 <= n <= 13
    ensures r.Some? ==> ReasonCode(r.value) == n
  {
    match n
    case 0 => Some(Unknown)
    case 1 => Some(Initialization)
    case 2 => Some(Periodic)
    case 3 => Some(SlowPeriodic)
    case 4 => Some(FastPeriodic)
    case 5 => Some(Expiration)
    case 6 => Some(FailureRecovery)
    case 7 => Some(NewAccount)
    case 8 => Some(ChangedAccount)
    case 9 => Some(FeatureToggled)
    case 10 => Some(ServerInitiated)
    case 11 => Some(AddressChange)
    case 12 => Some(SoftwareUpdate)
    case 13 => Some(Manual)
    case _ => None
  }

  /** Every reason survives being persisted and read back. */
  lemma ReasonCodeRoundTrip(r: InvocationReason)
    ensures ReasonFromCode(ReasonCode(r)) == Some(r)
  {
  }

  /** The three persisted preferences: the recovering flag, the time of the
      last successful enrollment in Unix seconds (0 when there was none) and
      the integer code of the reason for the next or pending attempt. */
  datatype EnrollmentPrefs = EnrollmentPrefs(
    isRecoveringFromFailure: bool,
    lastEnrollmentTimeSeconds: int,
    reason: int)

  /** The registered defaults: not recovering, never enrolled, no reason. */
  function RegisterPrefs(): (p: EnrollmentPrefs)
    ensures !p.isRecoveringFromFailure
    ensures BaseTime.IsNull(GetLastEnrollmentTime(p))
    ensures ReasonFromCode(p.reason) == Some(Unknown)
  {
    EnrollmentPrefs(false, 0, ReasonCode(Unknown))
  }

  datatype Strategy = PeriodicRefresh | AggressiveRecovery

  datatype SyncState = WaitingForRefresh | SyncInProgress

  /** What the scheduler reports when it is asked. */
  datatype SchedulerStatus = SchedulerStatus(
    strategy: Strategy,
    state: SyncState,
    timeToNextSync: int)

  /** The parameters the manager builds its scheduler with. */
  datatype SchedulerConfig = SchedulerConfig(
    refreshPeriod: int,
    baseRecoveryPeriod: int,
    maxJitterNumerator: int,
    maxJitterDenominator: int,
    name: string)

  /** The scheduler the manager creates: the recovery period is shorter than
      the refresh period, which is shorter than the validity period, so a
      routine refresh happens before the enrollment expires; the jitter
      bound is a proper fraction. */
  function CreateSyncScheduler(): (c: SchedulerConfig)
    ensures 0 < c.baseRecoveryPeriod < c.refreshPeriod < ValidEnrollmentPeriod
    ensures 0 < c.maxJitterNumerator < c.maxJitterDenominator
  {
    SchedulerConfig(
      EnrollmentRefreshPeriodDays * BaseTime.SecondsPerDay,
      EnrollmentBaseRecoveryPeriodMinutes * BaseTime.SecondsPerMinute,
      EnrollmentMaxJitterNumerator,
      EnrollmentMaxJitterDenominator,
      "CryptAuth Enrollment")
  }

  /** A call the manager makes on its scheduler or on the request the
      scheduler handed it. */
  datatype SchedulerCall =
    | StartScheduler(elapsed: int, strategy: Strategy)
    | ForceSync
    | DidComplete(success: bool)

  /** A notification sent to every observer. */
  datatype Notice = EnrollmentStarted | EnrollmentFinished(success: bool)

  /** An attempt in flight: the sync request and the enroller the manager
      holds, and the reason the enroller was invoked with. */
  datatype Attempt = Attempt(reason: InvocationReason)

  /** A started manager: its preferences and the attempt it holds, if any. */
  datatype Manager = Manager(prefs: EnrollmentPrefs, attempt: Option<Attempt>)

  /** The outcome of one operation: the new manager, the scheduler calls it
      made and the notifications it sent, each in order. */
  datatype Step = Step(manager: Manager, calls: seq<SchedulerCall>, notices: seq<Notice>)

  /** The time of the last successful enrollment; null when none is stored. */
  function GetLastEnrollmentTime(p: EnrollmentPrefs): (t: int)
    ensures p.lastEnrollmentTimeSeconds == 0 ==> BaseTime.IsNull(t)
    ensures !BaseTime.IsNull(t) ==> BaseTime.ToDoubleT(t) == p.lastEnrollmentTimeSeconds
  {
    BaseTime.FromDoubleT(p.lastEnrollmentTimeSeconds)
  }

  /** An enrollment is valid when one is recorded and it is less than the
      validity period old. */
  function IsEnrollmentValid(p: EnrollmentPrefs, now: int): (valid: bool)
    ensures valid ==> p.lastEnrollmentTimeSeconds != 0
    ensures p.lastEnrollmentTimeSeconds != 0 && p.lastEnrollmentTimeSeconds != -BaseTime.UnixEpochOffset ==>
      (valid <==> (now - BaseTime.UnixEpochOffset) - p.lastEnrollmentTimeSeconds < ValidEnrollmentPeriod)
  {
    var last := GetLastEnrollmentTime(p);
    !BaseTime.IsNull(last) && now - last < ValidEnrollmentPeriod
  }

  /** Start reads the preferences and starts the scheduler: aggressive
      recovery when the last attempt failed or the enrollment is not valid,
      periodic refresh otherwise, with the time elapsed since the last
      enrollment (since the null time when there was none). */
  function Start(prefs: EnrollmentPrefs, now: int): (s: Step)
    ensures s.manager == Manager(prefs, None)
    ensures s.notices == []
    ensures |s.calls| == 1 && s.calls[0].StartScheduler?
    ensures s.calls[0].strategy == AggressiveRecovery <==>
      prefs.isRecoveringFromFailure || !IsEnrollmentValid(prefs, now)
    ensures prefs.lastEnrollmentTimeSeconds == 0 ==>
      s.calls[0].elapsed == now - BaseTime.NullTime && s.calls[0].strategy == AggressiveRecovery
    ensures prefs.lastEnrollmentTimeSeconds != 0 && prefs.lastEnrollmentTimeSeconds != -BaseTime.UnixEpochOffset ==>
      s.calls[0].elapsed == (now - BaseTime.UnixEpochOffset) - prefs.lastEnrollmentTimeSeconds
  {
    var recovering := prefs.isRecoveringFromFailure || !IsEnrollmentValid(prefs, now);
    var elapsed := now - GetLastEnrollmentTime(prefs);
    Step(
      Manager(prefs, None),
      [StartScheduler(elapsed, if recovering then AggressiveRecovery else PeriodicRefresh)],
      [])
  }

  /** Persists the reason, so that it survives a restart and is reused by a
      retry, then forces a sync. Nothing else changes. */
  function ForceEnrollmentNow(m: Manager, reason: InvocationReason): (s: Step)
    ensures s.manager.attempt == m.attempt
    ensures s.manager.prefs.isRecoveringFromFailure == m.prefs.isRecoveringFromFailure
    ensures s.manager.prefs.lastEnrollmentTimeSeconds == m.prefs.lastEnrollmentTimeSeconds
    ensures ReasonFromCode(s.manager.prefs.reason) == Some(reason)
    ensures s.calls == [ForceSync] && s.notices == []
  {
    Step(Manager(m.prefs.(reason := ReasonCode(reason)), m.attempt), [ForceSync], [])
  }

  /** The persisted reason when it names a reason other than Unknown. */
  function StoredReason(p: EnrollmentPrefs): (r: Option<InvocationReason>)
    ensures r.Some? ==> r.value != Unknown && ReasonCode(r.value) == p.reason
    ensures r.None? ==> ReasonFromCode(p.reason) in {None, Some(Unknown)}
  {
    match ReasonFromCode(p.reason)
    case Some(stored) => if stored != Unknown then Some(stored) else None
    case None => None
  }

  /** The reason an attempt carries, in priority order: a stored reason;
      Initialization when no enrollment is recorded; Expiration when the
      recorded one is no longer valid; otherwise Periodic or FailureRecovery
      according to the scheduler's strategy. It is never Unknown. */
  function DeriveReason(p: EnrollmentPrefs, now: int, strategy: Strategy): (r: InvocationReason)
    ensures r != Unknown
    ensures StoredReason(p).Some? ==> r == StoredReason(p).value
    ensures StoredReason(p).None? ==>
      && (r == Initialization <==> BaseTime.IsNull(GetLastEnrollmentTime(p)))
      && (r == Expiration <==> !BaseTime.IsNull(GetLastEnrollmentTime(p)) && !IsEnrollmentValid(p, now))
      && (r == Periodic <==> IsEnrollmentValid(p, now) && strategy == PeriodicRefresh)
      && (r == FailureRecovery <==> IsEnrollmentValid(p, now) && strategy == AggressiveRecovery)
  {
    if StoredReason(p).Some? then StoredReason(p).value
    else if BaseTime.IsNull(GetLastEnrollmentTime(p)) then Initialization
    else if !IsEnrollmentValid(p, now) then Expiration
    else match strategy
      case PeriodicRefresh => Periodic
      case AggressiveRecovery => FailureRecovery
  }

  /** The scheduler asks for a sync: observers learn that an attempt starts,
      and the manager keeps the request and a fresh enroller invoked with the
      derived reason. The preferences are only read. */
  function OnSyncRequested(m: Manager, now: int, strategy: Strategy): (s: Step)
    ensures s.manager.prefs == m.prefs
    ensures s.manager.attempt == Some(Attempt(DeriveReason(m.prefs, now, strategy)))
    ensures s.calls == [] && s.notices == [EnrollmentStarted]
  {
    Step(Manager(m.prefs, Some(Attempt(DeriveReason(m.prefs, now, strategy)))), [], [EnrollmentStarted])
  }

  /** The enroller reports its outcome. A success records `now` as the last
      enrollment time and clears the stored reason; a failure keeps both, so
      that a forced reason is reused by the retry. The recovering flag
      becomes the negation of success. The request is completed, the request
      and the enroller are released and observers learn the outcome. */
  function OnEnrollmentFinished(m: Manager, now: int, success: bool): (s: Step)
    requires m.attempt.Some?
    ensures s.manager.attempt.None?
    ensures s.manager.prefs.isRecoveringFromFailure == !success
    ensures success ==> ReasonFromCode(s.manager.prefs.reason) == Some(Unknown)
    ensures success && now != BaseTime.UnixEpochOffset ==> GetLastEnrollmentTime(s.manager.prefs) == now
    ensures !success ==>
      && s.manager.prefs.lastEnrollmentTimeSeconds == m.prefs.lastEnrollmentTimeSeconds
      && s.manager.prefs.reason == m.prefs.reason
    ensures s.calls == [DidComplete(success)] && s.notices == [EnrollmentFinished(success)]
  {
    var recorded :=
      if success then m.prefs.(lastEnrollmentTimeSeconds := BaseTime.ToDoubleT(now), reason := ReasonCode(Unknown))
      else m.prefs;
    Step(
      Manager(recorded.(isRecoveringFromFailure := !success), None),
      [DidComplete(success)],
      [EnrollmentFinished(success)])
  }

  /** An enrollment is in progress exactly while the scheduler is syncing. */
  function IsEnrollmentInProgress(status: SchedulerStatus): (inProgress: bool)
    ensures inProgress <==> status.state == SyncInProgress
  {
    status.state == SyncInProgress
  }

  /** The manager is recovering exactly while the scheduler uses the
      aggressive recovery strategy. */
  function IsRecoveringFromFailure(status: SchedulerStatus): (recovering: bool)
    ensures recovering <==> status.strategy == AggressiveRecovery
  {
    status.strategy == AggressiveRecovery
  }

  /** The time to the next attempt is the scheduler's time to next sync. */
  function GetTimeToNextAttempt(status: SchedulerStatus): (delay: int)
    ensures delay == status.timeToNextSync
  {
    status.timeToNextSync
  }

  // ---------------------------------------------------------------------
  // Properties relating several operations.
  // ---------------------------------------------------------------------

  /** A success recorded at `t` keeps the enrollment valid at `later`
      exactly while less than the validity period has passed. */
  lemma SuccessIsValidForValidityPeriod(m: Manager, t: int, later: int)
    requires m.attempt.Some?
    requires !BaseTime.IsNull(t) && t != BaseTime.UnixEpochOffset
    ensures IsEnrollmentValid(OnEnrollmentFinished(m, t, true).manager.prefs, later) <==>
      later - t < ValidEnrollmentPeriod
  {
    assert GetLastEnrollmentTime(OnEnrollmentFinished(m, t, true).manager.prefs) == t;
  }

  /** A forced reason other than Unknown is the reason of the next attempt,
      whatever the scheduler's strategy and the recorded enrollment. */
  lemma ForcedReasonIsCarried(m: Manager, reason: InvocationReason, now: int, strategy: Strategy)
    requires reason != Unknown
    ensures OnSyncRequested(ForceEnrollmentNow(m, reason).manager, now, strategy).manager.attempt
      == Some(Attempt(reason))
  {
    ReasonCodeRoundTrip(reason);
  }

  /** When a forced attempt fails, the retry carries the forced reason again
      instead of FailureRecovery. */
  lemma ForcedReasonSurvivesFailure(
    m: Manager, reason: InvocationReason,
    t1: int, s1: Strategy, t2: int, t3: int, s3: Strategy)
    requires reason != Unknown
    ensures
      var forced := ForceEnrollmentNow(m, reason).manager;
      var fired := OnSyncRequested(forced, t1, s1).manager;
      var failed := OnEnrollmentFinished(fired, t2, false).manager;
      && failed.prefs.isRecoveringFromFailure
      && OnSyncRequested(failed, t3, s3).manager.attempt == Some(Attempt(reason))
  {
    ReasonCodeRoundTrip(reason);
  }

  /** After a success, a later attempt inside the validity period carries
      Periodic or FailureRecovery according to the scheduler's strategy:
      any forced reason has been consumed. */
  lemma SuccessConsumesStoredReason(m: Manager, t: int, later: int, strategy: Strategy)
    requires m.attempt.Some?
    requires !BaseTime.IsNull(t) && t != BaseTime.UnixEpochOffset
    requires later - t < ValidEnrollmentPeriod
    ensures
      var done := OnEnrollmentFinished(m, t, true).manager;
      OnSyncRequested(done, later, strategy).manager.attempt ==
        Some(Attempt(if strategy == PeriodicRefresh then Periodic else FailureRecovery))
  {
    var done := OnEnrollmentFinished(m, t, true).manager;
    SuccessIsValidForValidityPeriod(m, t, later);
    assert StoredReason(done.prefs).None?;
  }

  /** A restart after a failed attempt starts the scheduler in aggressive
      recovery, and the last enrollment time it measures from is unchanged. */
  lemma RestartAfterFailureRecovers(m: Manager, t: int, now: int)
    requires m.attempt.Some?
    ensures
      var failed := OnEnrollmentFinished(m, t, false).manager;
      var started := Start(failed.prefs, now);
      && started.calls[0].strategy == AggressiveRecovery
      && started.calls[0].elapsed == now - GetLastEnrollmentTime(m.prefs)
  {
  }

  /** A restart after a success, inside the validity period, starts the
      scheduler in periodic refresh with the time since that success. */
  lemma RestartAfterSuccessRefreshes(m: Manager, t: int, now: int)
    requires m.attempt.Some?
    requires !BaseTime.IsNull(t) && t != BaseTime.UnixEpochOffset
    requires now - t < ValidEnrollmentPeriod
    ensures
      var done := OnEnrollmentFinished(m, t, true).manager;
      var started := Start(done.prefs, now);
      && started.calls[0] == StartScheduler(now - t, PeriodicRefresh)
  {
    SuccessIsValidForValidityPeriod(m, t, now);
    assert GetLastEnrollmentTime(OnEnrollmentFinished(m, t, true).manager.prefs) == t;
  }

  /** With the registered defaults, Start recovers aggressively and the
      first attempt carries Initialization, whatever the strategy. */
  lemma FirstAttemptInitializes(now: int, later: int, strategy: Strategy)
    ensures Start(RegisterPrefs(), now).calls[0] == StartScheduler(now - BaseTime.NullTime, AggressiveRecovery)
    ensures OnSyncRequested(Start(RegisterPrefs(), now).manager, later, strategy).manager.attempt
      == Some(Attempt(Initialization))
  {
  }
}
