/** The enrollment manager's unit-test scenarios, restated over the model.
    Times are those of the test fixture: "now" starts at 20,000,000 Unix
    seconds, a valid enrollment is 15 days old and an expired one 100 days. */
module EnrollmentScenarios {
  import opened Wrappers
  import BaseTime
  import opened CryptAuthEnrollment

  const InitialTimeNowSeconds: int := 20000000
  const LaterTimeNowSeconds: int := InitialTimeNowSeconds + 30
  const LastEnrollmentTimeSeconds: int := InitialTimeNowSeconds - 60 * 60 * 24 * 15
  const LastExpiredEnrollmentTimeSeconds: int := InitialTimeNowSeconds - 60 * 60 * 24 * 100

  /** The preferences the fixture installs before each test. */
  const FixturePrefs: EnrollmentPrefs :=
    EnrollmentPrefs(false, LastEnrollmentTimeSeconds, ReasonCode(Unknown))

  /** Default preferences: aggressive recovery from the null time, an
      invalid enrollment and a null last enrollment time. */
  lemma InitWithDefaultPrefs()
    ensures
      var now := BaseTime.FromDoubleT(InitialTimeNowSeconds);
      && Start(RegisterPrefs(), now).calls ==
         [StartScheduler(now - BaseTime.FromDoubleT(0), AggressiveRecovery)]
      && !IsEnrollmentValid(RegisterPrefs(), now)
      && BaseTime.IsNull(GetLastEnrollmentTime(RegisterPrefs()))
  {
  }

  /** A 15-day-old enrollment: periodic refresh and a valid enrollment. */
  lemma InitWithExistingPrefs()
    ensures
      var now := BaseTime.FromDoubleT(InitialTimeNowSeconds);
      && Start(FixturePrefs, now).calls ==
         [StartScheduler(now - BaseTime.FromDoubleT(LastEnrollmentTimeSeconds), PeriodicRefresh)]
      && IsEnrollmentValid(FixturePrefs, now)
      && GetLastEnrollmentTime(FixturePrefs) == BaseTime.FromDoubleT(LastEnrollmentTimeSeconds)
  {
  }

  /** A 100-day-old enrollment: aggressive recovery and an invalid
      enrollment. */
  lemma InitWithExpiredEnrollment()
    ensures
      var now := BaseTime.FromDoubleT(InitialTimeNowSeconds);
      var prefs := FixturePrefs.(lastEnrollmentTimeSeconds := LastExpiredEnrollmentTimeSeconds);
      && Start(prefs, now).calls ==
         [StartScheduler(now - BaseTime.FromDoubleT(LastExpiredEnrollmentTimeSeconds), AggressiveRecovery)]
      && !IsEnrollmentValid(prefs, now)
      && GetLastEnrollmentTime(prefs) == BaseTime.FromDoubleT(LastExpiredEnrollmentTimeSeconds)
  {
  }

  /** The first attempt ever carries Initialization; after its success the
      last enrollment time is the completion time and the enrollment is
      valid. */
  lemma EnrollmentSucceedsForFirstTime()
    ensures
      var now := BaseTime.FromDoubleT(InitialTimeNowSeconds);
      var later := BaseTime.FromDoubleT(LaterTimeNowSeconds);
      var started := Start(FixturePrefs.(lastEnrollmentTimeSeconds := 0), now).manager;
      var fired := OnSyncRequested(started, now, PeriodicRefresh);
      var done := OnEnrollmentFinished(fired.manager, later, true);
      && !IsEnrollmentValid(started.prefs, now)
      && fired.manager.attempt == Some(Attempt(Initialization))
      && fired.notices == [EnrollmentStarted]
      && done.notices == [EnrollmentFinished(true)]
      && GetLastEnrollmentTime(done.manager.prefs) == later
      && IsEnrollmentValid(done.manager.prefs, later)
  {
  }

  /** A forced Manual enrollment forces a sync, carries Manual, and its
      success records the completion time. */
  lemma ForceEnrollment()
    ensures
      var now := BaseTime.FromDoubleT(InitialTimeNowSeconds);
      var later := BaseTime.FromDoubleT(LaterTimeNowSeconds);
      var started := Start(FixturePrefs, now).manager;
      var forced := ForceEnrollmentNow(started, Manual);
      var fired := OnSyncRequested(forced.manager, now, PeriodicRefresh);
      var done := OnEnrollmentFinished(fired.manager, later, true);
      && forced.calls == [ForceSync]
      && fired.manager.attempt == Some(Attempt(Manual))
      && GetLastEnrollmentTime(done.manager.prefs) == later
  {
  }

  /** A periodic attempt fails (the last time is kept and the manager is
      recovering), then the FailureRecovery retry succeeds (the manager is
      no longer recovering and the last time is the completion time). */
  lemma EnrollmentFailsThenSucceeds()
    ensures
      var now := BaseTime.FromDoubleT(InitialTimeNowSeconds);
      var later := BaseTime.FromDoubleT(LaterTimeNowSeconds);
      var latest := BaseTime.FromDoubleT(LaterTimeNowSeconds + 30);
      var started := Start(FixturePrefs, now).manager;
      var first := OnSyncRequested(started, now, PeriodicRefresh).manager;
      var failed := OnEnrollmentFinished(first, later, false).manager;
      var second := OnSyncRequested(failed, later, AggressiveRecovery).manager;
      var done := OnEnrollmentFinished(second, latest, true).manager;
      && first.attempt == Some(Attempt(Periodic))
      && GetLastEnrollmentTime(failed.prefs) == GetLastEnrollmentTime(started.prefs)
      && failed.prefs.isRecoveringFromFailure
      && second.attempt == Some(Attempt(FailureRecovery))
      && GetLastEnrollmentTime(done.prefs) == latest
      && !done.prefs.isRecoveringFromFailure
  {
  }

  /** The state queries mirror the scheduler's strategy, state and time to
      the next sync. */
  lemma GetEnrollmentState(timeToNextSync: int)
    ensures !IsRecoveringFromFailure(SchedulerStatus(PeriodicRefresh, WaitingForRefresh, timeToNextSync))
    ensures IsRecoveringFromFailure(SchedulerStatus(AggressiveRecovery, WaitingForRefresh, timeToNextSync))
    ensures GetTimeToNextAttempt(SchedulerStatus(AggressiveRecovery, WaitingForRefresh, timeToNextSync)) == timeToNextSync
    ensures IsEnrollmentInProgress(SchedulerStatus(AggressiveRecovery, SyncInProgress, timeToNextSync))
    ensures !IsEnrollmentInProgress(SchedulerStatus(AggressiveRecovery, WaitingForRefresh, timeToNextSync))
  {
  }
}
