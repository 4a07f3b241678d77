# Chromium components: a verified Dafny model

This project models several small components of a Chromium checkout and
proves properties about them. Each component has its own module, and the
repository's unit-test scenarios are restated as lemmas.

- **CryptAuth enrollment manager** (`enrollment.dfy`, `base_time.dfy`,
  `enrollment_scenarios.dfy`). The manager keeps three preferences: the
  last enrollment time, the recovering-from-failure flag and a pending
  invocation reason. It picks the sync strategy at start-up, derives the
  invocation reason for each attempt, and updates the preferences when an
  attempt finishes. The sync scheduler is abstract: the model passes in its
  status and returns the calls made on it as a trace. Time is a whole count
  of seconds since 1601, with 0 standing for the null `base::Time`.
  Preferences hold Unix seconds, with 0 meaning "never".
- **CronetBufferedOutputStream** (`byte_buffer.dfy`,
  `buffered_output_stream.dfy`). A request body is buffered either with a
  declared length, in which case the buffer never grows, or with an unknown
  length, in which case the buffer doubles as needed. The stream is then
  connected and read out. `java.nio.ByteBuffer` is modelled explicitly
  (position, limit, capacity), and Java exceptions become error results.
  The int sums in the write path wrap around at 2^31 as they do in Java.
  The contracts say what happens then as well as in the ordinary case.
- **TaskLogger** (`task_logger.dfy`). Log ids are drawn from a global
  counter. The history is bounded: it keeps the last 500 logs.
- **GPUTimingFake** (`gpu_timing_fake.dfy`). A fake
  GL timer with query-id allocation, elapsed-time and timestamp queries,
  result availability, and a read-once disjoint flag.
- **CredentialManagerPendingSignedOutTask** (`signed_out_task.dfy`). For
  each store result whose origin is being signed out, it marks the form
  `skip_zero_click` and updates it, then signals that signing out is done.
- **Dependency graph ordering** (`dependency_graph.dfy`,
  `dependency_graph_scenarios.dfy`). A construction order that respects
  every edge. No order exists when there is a cycle, and the destruction
  order is the reverse. The graph's implementation file is not part of this
  model, so the tie-break is the model's own choice: take the
  earliest-registered ready node. This choice gives every order the unit
  test expects, but the test checks only five concrete graphs. Other
  tie-breaks, such as a first-in-first-out queue of ready nodes, give
  different orders on other graphs.
- **Policy handlers** (`policy_handlers.dfy`,
  `policy_handlers_scenarios.dfy`). A string-to-int list mapping handler
  and an integer range handler, with or without clamping. The
  integer-percentage handler checks values the same way as the range
  handler. The handlers' implementation file is not part of this model; the
  behaviour is taken from what the unit test expects.
- **The Chromium fetch recipe** (`chromium_recipe.dfy`). It builds the
  gclient spec from the recipe properties and names the checkout root.

`wrappers.dfy` holds the `Option` and `Result` types that every module
uses.

Where a test constructs something with a sequence of calls, the model
builds it with the same calls in the same order. `AddNode`/`AddEdge`, for
example, build a dependency graph, so each scenario lemma states exactly
the order the test expects.

## Model

Paths are relative to the repository root.

| member | source | states |
|---|---|---|
| BaseTime.FromDoubleT | src/chromium/src/components/proximity_auth/cryptauth/cryptauth_enrollment_manager.cc:101-104 | a stored 0 means no time (null); any other Unix value is the same instant, shifted by the 1601 epoch offset |
| BaseTime.ToDoubleT | src/chromium/src/components/proximity_auth/cryptauth/cryptauth_enrollment_manager.cc:122-124 | the null time is stored as 0; any other time is stored as its Unix seconds |
| BaseTime.TimeRoundTrip | src/chromium/src/components/proximity_auth/cryptauth/cryptauth_enrollment_manager.cc:101-104 | storing a time and reading it back gives the same time exactly when it is not the Unix epoch, which reads back as the null time |
| BaseTime.SecondsRoundTrip | src/chromium/src/components/proximity_auth/cryptauth/cryptauth_enrollment_manager.cc:101-104 | reading a stored value and storing it again is the identity except for the one value that lands on the null time |
| CryptAuthEnrollment.ReasonFromCode | src/chromium/src/components/proximity_auth/cryptauth/cryptauth_enrollment_manager.cc:152-156 | a stored integer names a reason exactly when it is in 0..13, and then it is that reason's code |
| CryptAuthEnrollment.ReasonCodeRoundTrip | src/chromium/src/components/proximity_auth/cryptauth/cryptauth_enrollment_manager.cc:86-88 | every reason stored as its code is read back as the same reason |
| CryptAuthEnrollment.RegisterPrefs | src/chromium/src/components/proximity_auth/cryptauth/cryptauth_enrollment_manager.cc:48-55 | the defaults: not recovering, never enrolled (the null time), reason UNKNOWN |
| CryptAuthEnrollment.CreateSyncScheduler | src/chromium/src/components/proximity_auth/cryptauth/cryptauth_enrollment_manager.cc:16-29 | the scheduler periods satisfy 0 < recovery < refresh < validity, and the jitter is a proper fraction |
| CryptAuthEnrollment.GetLastEnrollmentTime | src/chromium/src/components/proximity_auth/cryptauth/cryptauth_enrollment_manager.cc:101-104 | stored seconds of 0 give the null time; a non-null time is the stored Unix instant |
| CryptAuthEnrollment.IsEnrollmentValid | src/chromium/src/components/proximity_auth/cryptauth/cryptauth_enrollment_manager.cc:94-99 | valid iff an enrollment was recorded and less than 45 days have passed since it, stated in stored Unix seconds |
| CryptAuthEnrollment.Start | src/chromium/src/components/proximity_auth/cryptauth/cryptauth_enrollment_manager.cc:57-74 | the scheduler starts in AGGRESSIVE_RECOVERY iff recovering or not validly enrolled, otherwise PERIODIC_REFRESH; the elapsed time is now minus the last enrollment, or minus the null time when there was none; the prefs are kept and no attempt is outstanding |
| CryptAuthEnrollment.ForceEnrollmentNow | src/chromium/src/components/proximity_auth/cryptauth/cryptauth_enrollment_manager.cc:84-92 | the reason is stored, and that is the only preference that changes; the scheduler sees exactly one ForceSync |
| CryptAuthEnrollment.StoredReason | src/chromium/src/components/proximity_auth/cryptauth/cryptauth_enrollment_manager.cc:152-156 | a stored reason counts only when its integer is a valid reason other than UNKNOWN |
| CryptAuthEnrollment.DeriveReason | src/chromium/src/components/proximity_auth/cryptauth/cryptauth_enrollment_manager.cc:152-172 | never UNKNOWN. In priority order: a usable stored reason; else INITIALIZATION when never enrolled; else EXPIRATION when invalid; else PERIODIC or FAILURE_RECOVERY, as the strategy says. Each case is stated as an iff |
| CryptAuthEnrollment.OnSyncRequested | src/chromium/src/components/proximity_auth/cryptauth/cryptauth_enrollment_manager.cc:145-178 | holds an attempt carrying the derived reason, changes no preference, and notifies observers once that enrollment started |
| CryptAuthEnrollment.OnEnrollmentFinished | src/chromium/src/components/proximity_auth/cryptauth/cryptauth_enrollment_manager.cc:120-136 | success records now and resets the reason to UNKNOWN; failure keeps both; recovering becomes not-success; completion is reported once, the attempt is released, and observers are notified once |
| CryptAuthEnrollment.IsEnrollmentInProgress | src/chromium/src/components/proximity_auth/cryptauth/cryptauth_enrollment_manager.cc:110-113 | in progress iff the scheduler's state is SYNC_IN_PROGRESS |
| CryptAuthEnrollment.IsRecoveringFromFailure | src/chromium/src/components/proximity_auth/cryptauth/cryptauth_enrollment_manager.cc:115-118 | recovering iff the scheduler's strategy is AGGRESSIVE_RECOVERY |
| CryptAuthEnrollment.GetTimeToNextAttempt | src/chromium/src/components/proximity_auth/cryptauth/cryptauth_enrollment_manager.cc:106-108 | the delay is the scheduler's time to its next sync |
| CryptAuthEnrollment.SuccessIsValidForValidityPeriod | src/chromium/src/components/proximity_auth/cryptauth/cryptauth_enrollment_manager.cc:94-99 | after a success at t, the enrollment is valid at a later instant exactly when less than 45 days have passed since t |
| CryptAuthEnrollment.ForcedReasonIsCarried | src/chromium/src/components/proximity_auth/cryptauth/cryptauth_enrollment_manager.cc:84-92 | the next attempt after forcing a reason carries that reason, whatever the strategy |
| CryptAuthEnrollment.ForcedReasonSurvivesFailure | src/chromium/src/components/proximity_auth/cryptauth/cryptauth_enrollment_manager.cc:126-130 | when a forced attempt fails, the retry carries the forced reason again |
| CryptAuthEnrollment.SuccessConsumesStoredReason | src/chromium/src/components/proximity_auth/cryptauth/cryptauth_enrollment_manager.cc:124-125 | after a success, the next attempt falls back to PERIODIC or FAILURE_RECOVERY, as the strategy says |
| CryptAuthEnrollment.RestartAfterFailureRecovers | src/chromium/src/components/proximity_auth/cryptauth/cryptauth_enrollment_manager.cc:60-73 | a restart after a failure starts the scheduler in AGGRESSIVE_RECOVERY |
| CryptAuthEnrollment.RestartAfterSuccessRefreshes | src/chromium/src/components/proximity_auth/cryptauth/cryptauth_enrollment_manager.cc:60-73 | a restart within 45 days of a success starts the scheduler in PERIODIC_REFRESH |
| CryptAuthEnrollment.FirstAttemptInitializes | src/chromium/src/components/proximity_auth/cryptauth/cryptauth_enrollment_manager.cc:160-162 | starting from default prefs recovers aggressively, with elapsed measured from the null time, and the first attempt carries INITIALIZATION |
| EnrollmentScenarios.InitWithDefaultPrefs | src/chromium/src/components/proximity_auth/cryptauth/cryptauth_enrollment_manager_unittest.cc:246-256 | with default prefs: AGGRESSIVE_RECOVERY, elapsed since the null time, invalid, last time null |
| EnrollmentScenarios.InitWithExistingPrefs | src/chromium/src/components/proximity_auth/cryptauth/cryptauth_enrollment_manager_unittest.cc:258-268 | enrolled 15 days ago and not recovering: PERIODIC_REFRESH, elapsed 15 days, valid |
| EnrollmentScenarios.InitWithExpiredEnrollment | src/chromium/src/components/proximity_auth/cryptauth/cryptauth_enrollment_manager_unittest.cc:270-284 | enrolled 100 days ago: AGGRESSIVE_RECOVERY, elapsed 100 days, invalid |
| EnrollmentScenarios.EnrollmentSucceedsForFirstTime | src/chromium/src/components/proximity_auth/cryptauth/cryptauth_enrollment_manager_unittest.cc:286-302 | the first attempt carries INITIALIZATION; after success the last time is now and the enrollment is valid |
| EnrollmentScenarios.ForceEnrollment | src/chromium/src/components/proximity_auth/cryptauth/cryptauth_enrollment_manager_unittest.cc:304-317 | forcing MANUAL makes the attempt carry MANUAL, and its success records now |
| EnrollmentScenarios.EnrollmentFailsThenSucceeds | src/chromium/src/components/proximity_auth/cryptauth/cryptauth_enrollment_manager_unittest.cc:319-347 | PERIODIC first; after the failure, last time unchanged and recovering; the retry carries FAILURE_RECOVERY; after the success, not recovering and last time now |
| EnrollmentScenarios.GetEnrollmentState | src/chromium/src/components/proximity_auth/cryptauth/cryptauth_enrollment_manager_unittest.cc:221-244 | the state queries follow the scheduler: recovering for each strategy, in progress for each state, and the delay passed through |
| JavaByteBuffer.Allocate | src/chromium/src/components/cronet/android/java/src/org/chromium/net/urlconnection/CronetBufferedOutputStream.java:52 | a negative capacity is refused; otherwise an empty buffer of that capacity, with the limit at capacity |
| JavaByteBuffer.PutBytes | src/chromium/src/components/cronet/android/java/src/org/chromium/net/urlconnection/CronetBufferedOutputStream.java:79 | bad offset or length is an index error; too little room is an overflow; otherwise the bytes land at the position, which advances by the length, and nothing else changes |
| JavaByteBuffer.PutByte | src/chromium/src/components/cronet/android/java/src/org/chromium/net/urlconnection/CronetBufferedOutputStream.java:73 | overflows iff no room remains; otherwise one byte is written at the position, which advances by one, and the bytes before and after it are unchanged |
| JavaByteBuffer.PutBuffer | src/chromium/src/components/cronet/android/java/src/org/chromium/net/urlconnection/CronetBufferedOutputStream.java:108 | overflows iff the source has more remaining than the destination; otherwise the source's remaining bytes are copied, both positions advance, and the destination's bytes outside the copied range are unchanged |
| JavaByteBuffer.Flip | src/chromium/src/components/cronet/android/java/src/org/chromium/net/urlconnection/CronetBufferedOutputStream.java:107 | the written prefix becomes the readable range, starting at position 0 |
| JavaByteBuffer.SetPosition | src/chromium/src/components/cronet/android/java/src/org/chromium/net/urlconnection/CronetBufferedOutputStream.java:151 | moves the position iff the new one lies within [0, limit] |
| CronetBufferedOutputStream.NewFixedLength | src/chromium/src/components/cronet/android/java/src/org/chromium/net/urlconnection/CronetBufferedOutputStream.java:37-53 | a missing connection is refused first; then a length above Integer.MAX_VALUE or below 0 is refused, each with its own error; otherwise the buffer capacity is the length and nothing is written |
| CronetBufferedOutputStream.NewUnknownLength | src/chromium/src/components/cronet/android/java/src/org/chromium/net/urlconnection/CronetBufferedOutputStream.java:59-68 | refused exactly when the connection is missing; otherwise length unknown (-1), capacity 16384, nothing written, not connected |
| JavaByteBuffer.Int32 | src/chromium/src/components/cronet/android/java/src/org/chromium/net/urlconnection/CronetBufferedOutputStream.java:88-89 | the int a Java int expression yields: the one value in [Integer.MIN_VALUE, Integer.MAX_VALUE] congruent to the exact sum modulo 2^32, equal to the sum when that fits and 2^32 below it when the sum is at most 2^32 too large |
| CronetBufferedOutputStream.EnsureCanWrite | src/chromium/src/components/cronet/android/java/src/org/chromium/net/urlconnection/CronetBufferedOutputStream.java:87-110 | the length check, done in wrapping int arithmetic, is reported before the connected check. A wrapped negative growth size is refused by the allocation. Otherwise the written bytes are kept and the room left is the room the later put sees. When no int sum wraps, the length check is the exact one, and at least count bytes remain afterwards. A fixed stream is unchanged. An unknown-length stream whose room is not above count grows to max(2·cap, cap+count) |
| CronetBufferedOutputStream.Write | src/chromium/src/components/cronet/android/java/src/org/chromium/net/urlconnection/CronetBufferedOutputStream.java:76-80 | each error holds in exactly one case, in the source's order. The order is: past the length by the wrapped check, connected, growth size negative, slice out of bounds, too little room for the put. When no int sum wraps, success is exactly "slice in bounds, fits a fixed length, not connected", and the buffer never overflows. On success the written bytes gain exactly that slice. A length, connected or allocation refusal leaves the stream unchanged. A refused slice or an overflowing put may follow growth: it keeps the written bytes and the stream stays unconnected |
| CronetBufferedOutputStream.WrappedLengthCheckLetsWriteThrough | src/chromium/src/components/cronet/android/java/src/org/chromium/net/urlconnection/CronetBufferedOutputStream.java:88-89 | with 10 bytes declared and 5 written, a write of Integer.MAX_VALUE bytes exceeds the length, but the wrapped check passes it. It then fails as an out-of-bounds slice, or as a write after connect |
| CronetBufferedOutputStream.GrownSizeCoversCapacity | src/chromium/src/components/cronet/android/java/src/org/chromium/net/urlconnection/CronetBufferedOutputStream.java:105-108 | the wrapped growth size is negative or at least the old capacity, so moving the written bytes into the grown buffer cannot overflow |
| CronetBufferedOutputStream.WriteByte | src/chromium/src/components/cronet/android/java/src/org/chromium/net/urlconnection/CronetBufferedOutputStream.java:70-74 | the byte is refused past the length, after connecting, and in two wrap cases. The first is a full Integer.MAX_VALUE-byte fixed stream, where the position sum wraps and the put overflows. The second is a full Integer.MAX_VALUE-byte unknown-length buffer, which cannot grow. Otherwise the low 8 bits of the int are appended. A refusal leaves the stream unchanged |
| CronetBufferedOutputStream.SetConnected | src/chromium/src/components/cronet/android/java/src/org/chromium/net/urlconnection/CronetBufferedOutputStream.java:117-125 | the stream is connected even when the content is short; short content is the only error; otherwise the buffer is flipped so the written bytes become readable |
| CronetBufferedOutputStream.GetLength | src/chromium/src/components/cronet/android/java/src/org/chromium/net/urlconnection/CronetBufferedOutputStream.java:133-144 | the declared length in fixed mode; in unknown mode the buffer position, which before connecting is the number of bytes written and afterwards is the read cursor |
| CronetBufferedOutputStream.Read | src/chromium/src/components/cronet/android/java/src/org/chromium/net/urlconnection/CronetBufferedOutputStream.java:146-156 | copies min(room up to the destination's capacity, bytes left) bytes from the cursor, advances both cursors by that amount, and never fails when the destination's limit is its capacity. The destination's limit and its bytes outside the copied range are unchanged |
| CronetBufferedOutputStream.Rewind | src/chromium/src/components/cronet/android/java/src/org/chromium/net/urlconnection/CronetBufferedOutputStream.java:158-162 | the cursor returns to 0 and the body is untouched |
| CronetBufferedOutputStream.NoWriteAfterConnect | src/chromium/src/components/cronet/android/java/src/org/chromium/net/urlconnection/CronetBufferedOutputStream.java:94-96 | after SetConnected, even a failed one, any write that passes the length check is refused as a write after connect |
| CronetBufferedOutputStream.FixedLengthNeverGrows | src/chromium/src/components/cronet/android/java/src/org/chromium/net/urlconnection/CronetBufferedOutputStream.java:97-100 | in fixed mode the capacity stays the declared length through any write |
| CronetBufferedOutputStream.ConnectThenReadDeliversBody | src/chromium/src/components/cronet/android/java/src/org/chromium/net/urlconnection/CronetBufferedOutputStream.java:117-156 | connecting a complete body and reading it into a large enough empty buffer delivers exactly the bytes written |
| CronetBufferedOutputStream.UnknownLengthKeepsEveryChunk | src/chromium/src/components/cronet/android/java/src/org/chromium/net/urlconnection/CronetBufferedOutputStream.java:101-109 | in unknown mode any sequence of whole-chunk writes whose total, doubled, fits in an int succeeds, and the buffer holds the concatenation of every chunk, in order |
| CronetBufferedOutputStream.WriteAll | src/chromium/src/components/cronet/android/java/src/org/chromium/net/urlconnection/CronetBufferedOutputStream.java:76-80 | a sequence of writes of Java arrays keeps the stream well-formed |
| TaskLogger.GenerateLogId | src/chromium/src/chrome/browser/sync_file_system/task_logger.cc:17-23 | hands out the counter's value and advances the counter by one |
| TaskLogger.NewTaskLog | src/chromium/src/chrome/browser/sync_file_system/task_logger.cc:29 | a new log gets the next id and keeps its description |
| TaskLogger.NewTaskLogs | src/chromium/src/chrome/browser/sync_file_system/task_logger.cc:17-29 | logs built in sequence get consecutive, strictly increasing ids |
| TaskLogger.IdsStartAtOne | src/chromium/src/chrome/browser/sync_file_system/task_logger.cc:17-23 | from the initial counter, the i-th log built gets id i + 1 |
| TaskLogger.NewLogger | src/chromium/src/chrome/browser/sync_file_system/task_logger.cc:26 | a new logger has an empty history |
| TaskLogger.RecordLog | src/chromium/src/chrome/browser/sync_file_system/task_logger.cc:38-51 | a null log changes nothing and notifies no one. Otherwise the log is appended at the back, dropping the oldest entry when 500 are already held; observers are notified once with it; the bound of 500 is kept |
| TaskLogger.ClearLog | src/chromium/src/chrome/browser/sync_file_system/task_logger.cc:53-56 | the history becomes empty |
| TaskLogger.GetLog | src/chromium/src/chrome/browser/sync_file_system/task_logger.cc:66-68 | the history, which never holds more than 500 logs |
| TaskLogger.LastN | src/chromium/src/chrome/browser/sync_file_system/task_logger.cc:42-47 | the window holds at most n logs and at most as many as there are |
| TaskLogger.LastNOfLastN | src/chromium/src/chrome/browser/sync_file_system/task_logger.cc:42-47 | trimming to the last n before appending more and trimming again is the same as trimming once |
| TaskLogger.RecordLogIsWindow | src/chromium/src/chrome/browser/sync_file_system/task_logger.cc:38-47 | one record leaves the last 500 of (old history + the log, if any) |
| TaskLogger.HistoryIsLastWindow | src/chromium/src/chrome/browser/sync_file_system/task_logger.cc:38-51 | after any sequence of records, the history is the last 500 of all non-null logs, in order, and observers have seen exactly those logs |
| GpuTimingFake.Reset | src/chromium/src/ui/gl/gpu_timing_fake.cc:26-32 | time 0, next id 23, no allocated ids, no results, no active elapsed query; the disjoint flag is not touched |
| GpuTimingFake.NewFake | src/chromium/src/ui/gl/gpu_timing_fake.cc:19-21 | a new fake is already in its reset state |
| GpuTimingFake.SetCurrentGLTime | src/chromium/src/ui/gl/gpu_timing_fake.cc:34-36 | only the clock changes |
| GpuTimingFake.SetDisjoint | src/chromium/src/ui/gl/gpu_timing_fake.cc:38-40 | only the disjoint flag changes, to set |
| GpuTimingFake.GenQueries | src/chromium/src/ui/gl/gpu_timing_fake.cc:107-112 | n consecutive ids from the next id (none for n < 0); they are added to the allocated set, the next id advances by n, and nothing else changes |
| GpuTimingFake.DeleteQueries | src/chromium/src/ui/gl/gpu_timing_fake.cc:114-121 | the ids leave the allocated set and the results, other results are kept, and the current elapsed query is reset iff its id is deleted |
| GpuTimingFake.BeginQuery | src/chromium/src/ui/gl/gpu_timing_fake.cc:123-135 | only TIME_ELAPSED is accepted, and only with no active query; the query becomes active with the current time as its begin |
| GpuTimingFake.EndQuery | src/chromium/src/ui/gl/gpu_timing_fake.cc:137-150 | only TIME_ELAPSED with an active query; stores an elapsed result (begin, now) under its id and deactivates it; the clock, the allocated ids, the next id and the disjoint flag are unchanged |
| GpuTimingFake.QueryResultAvailable | src/chromium/src/ui/gl/gpu_timing_fake.cc:152-165 | only QUERY_RESULT_AVAILABLE is accepted; the answer is 1 iff a result exists for the id and its value is not after the current time, else 0 |
| GpuTimingFake.QueryCounter | src/chromium/src/ui/gl/gpu_timing_fake.cc:167-179 | only TIMESTAMP on an allocated id is accepted; it stores a timestamp result equal to now |
| GpuTimingFake.GetInteger64v | src/chromium/src/ui/gl/gpu_timing_fake.cc:181-189 | TIMESTAMP gives the current time; every other name is refused |
| GpuTimingFake.ToUint64 | src/chromium/src/ui/gl/gpu_timing_fake.cc:199-206 | the result lies in the GLuint64 range, leaves in-range values unchanged, maps a negative difference x to 2^64 + x, and is always congruent to x modulo 2^64 |
| GpuTimingFake.QueryResultValue | src/chromium/src/ui/gl/gpu_timing_fake.cc:191-211 | only QUERY_RESULT is accepted, and a missing result is an error; a timestamp gives its value, and an elapsed query gives value minus begin, both as GLuint64 |
| GpuTimingFake.GetIntegerv | src/chromium/src/ui/gl/gpu_timing_fake.cc:213-222 | only GPU_DISJOINT is accepted; it gives the flag as 0/1 and clears it |
| GpuTimingFake.GetError | src/chromium/src/ui/gl/gpu_timing_fake.cc:224-226 | always GL_NO_ERROR |
| GpuTimingFake.FreshIds | src/chromium/src/ui/gl/gpu_timing_fake.cc:107-112 | in a well-formed fake, generated ids were not allocated before and are allocated after |
| GpuTimingFake.GenThenDelete | src/chromium/src/ui/gl/gpu_timing_fake.cc:107-121 | deleting the ids just generated restores the allocated set |
| GpuTimingFake.ElapsedQueryMeasuresSpan | src/chromium/src/ui/gl/gpu_timing_fake.cc:123-206 | a query begun at t0 and ended at t1 is available at t1 with value t1 - t0, is not available once the clock is set earlier, and is no longer active |
| GpuTimingFake.ClockSetBackWrapsElapsed | src/chromium/src/ui/gl/gpu_timing_fake.cc:137-206 | a query ended after the clock was set back before its begin reads back as 2^64 minus the span, because the negative difference is stored into a GLuint64 |
| GpuTimingFake.TimestampHoldsIssueTime | src/chromium/src/ui/gl/gpu_timing_fake.cc:152-206 | a timestamp is available at once and holds its issue time |
| GpuTimingFake.DisjointIsReadAndCleared | src/chromium/src/ui/gl/gpu_timing_fake.cc:213-218 | after SetDisjoint, the first read gives 1 and the second gives 0 |
| PendingSignedOutTask.NewSignedOutTask | src/chromium/src/components/password_manager/core/browser/credential_manager_pending_signed_out_task.cc:13-18 | the origin set is exactly the given origin |
| PendingSignedOutTask.AddOrigin | src/chromium/src/components/password_manager/core/browser/credential_manager_pending_signed_out_task.cc:23-25 | the set gains the origin and nothing else; adding an origin already present changes nothing |
| PendingSignedOutTask.OnGetPasswordStoreResults | src/chromium/src/components/password_manager/core/browser/credential_manager_pending_signed_out_task.cc:27-41 | the updates, in result order, are exactly the matching forms with skip_zero_click set; they are followed by exactly one DoneSigningOut, which is the last call |
| PendingSignedOutTask.UpdatesAreExactlyMatchingForms | src/chromium/src/components/password_manager/core/browser/credential_manager_pending_signed_out_task.cc:29-38 | every form whose origin is in the set is updated with skip_zero_click set. Every update is such a form. Forms with other origins are never sent, so when nothing matches, only DoneSigningOut is called |
| DependencyGraph.AddNode | src/chromium/src/components/keyed_service/core/dependency_graph_unittest.cc:14-16 | a service registers itself after every service registered before it, and the edges are unchanged |
| DependencyGraph.AddEdge | src/chromium/src/components/keyed_service/core/dependency_graph_unittest.cc:49 | the dependency is recorded after the earlier ones, and the registered services are unchanged |
| DependencyGraph.AddedNodeIsBuilt | src/chromium/src/components/keyed_service/core/dependency_graph_unittest.cc:28-34 | a registered service appears in any construction order of the graph |
| DependencyGraph.AddedEdgeIsRespected | src/chromium/src/components/keyed_service/core/dependency_graph_unittest.cc:44-55 | among distinct registered services, a recorded dependency puts the parent before the child in any construction order |
| DependencyGraph.ConstructionOrder | src/chromium/src/components/keyed_service/core/dependency_graph_unittest.cc:33 | a returned order holds every registered service exactly as often as it was registered, and no order is returned only when no order respects every edge. ConstructionOrderIsTopological states the rest of its contract |
| DependencyGraph.NoOrderMeansNoTopologicalOrder | src/chromium/src/components/keyed_service/core/dependency_graph_unittest.cc:28-156 | when the construction fails, no sequence of the services respects every edge |
| DependencyGraph.FirstReady | src/chromium/src/components/keyed_service/core/dependency_graph_unittest.cc:65-87 | the earliest remaining node with no remaining parent, and none exactly when every node is blocked. The insertion-order tie-break is the model's own choice and agrees with the orders the test expects |
| DependencyGraph.DestructionOrder | src/chromium/src/components/keyed_service/core/dependency_graph_unittest.cc:37-61 | exists iff a construction order exists, and is its exact reverse |
| DependencyGraph.OrderIsPermutation | src/chromium/src/components/keyed_service/core/dependency_graph_unittest.cc:28-156 | a computed order holds every node exactly as often as it was added |
| DependencyGraph.OrderRespectsEdges | src/chromium/src/components/keyed_service/core/dependency_graph_unittest.cc:44-62 | in a computed order over distinct nodes, every parent comes before its child |
| DependencyGraph.RemoveKeepsTopological | src/chromium/src/components/keyed_service/core/dependency_graph_unittest.cc:44-62 | removing a node with no remaining parent from a valid order leaves a valid order of the rest |
| DependencyGraph.TopologicalOrderGivesOrder | src/chromium/src/components/keyed_service/core/dependency_graph_unittest.cc:51-55 | whenever some order respects every edge, the construction succeeds |
| DependencyGraph.ConstructionOrderIsTopological | src/chromium/src/components/keyed_service/core/dependency_graph_unittest.cc:28-156 | for distinct nodes, the construction succeeds exactly when some order respects every edge, and what it returns is such an order: a permutation of the nodes with every parent before its child |
| DependencyGraph.DestructionRespectsEdges | src/chromium/src/components/keyed_service/core/dependency_graph_unittest.cc:57-61 | in the destruction order every child comes before its parent |
| DependencyGraph.ParentsFirstKeepsInsertionOrder | src/chromium/src/components/keyed_service/core/dependency_graph_unittest.cc:65-156 | when every node was added after all of its parents, the model builds the nodes in exactly the order they were added. This follows from its own tie-break, and it gives the orders the test expects |
| DependencyGraph.NoEdgesKeepsInsertionOrder | src/chromium/src/components/keyed_service/core/dependency_graph_unittest.cc:28-41 | without edges, nodes are built in the order they were added |
| DependencyGraphScenarios.SingleCase | src/chromium/src/components/keyed_service/core/dependency_graph_unittest.cc:28-41 | one node is built and torn down alone |
| DependencyGraphScenarios.SimpleDependency | src/chromium/src/components/keyed_service/core/dependency_graph_unittest.cc:44-62 | parent then child; torn down child then parent |
| DependencyGraphScenarios.TwoChildrenOneParent | src/chromium/src/components/keyed_service/core/dependency_graph_unittest.cc:65-87 | parent, child1, child2, and the reverse |
| DependencyGraphScenarios.MConfiguration | src/chromium/src/components/keyed_service/core/dependency_graph_unittest.cc:90-123 | parent1, parent2, child_of_1, child_of_12, child_of_2, and the reverse |
| DependencyGraphScenarios.DiamondConfiguration | src/chromium/src/components/keyed_service/core/dependency_graph_unittest.cc:126-156 | parent, middle1, middle2, bottom, and the reverse |
| PolicyHandlers.Map | src/chromium/src/components/policy/core/browser/configuration_policy_handler_unittest.cc:21-27 | a string maps to a value iff some mapping entry has that name, and then to the value of the first such entry |
| PolicyHandlers.MapEntries | src/chromium/src/components/policy/core/browser/configuration_policy_handler_unittest.cc:50-89 | each entry gives exactly one value or one error; every error names the policy and the index of an entry that maps to nothing; a non-string entry is a type error and an unknown string a range error, and each such entry is reported; there are no errors iff every entry is a known string |
| PolicyHandlers.CheckAndGetList | src/chromium/src/components/policy/core/browser/configuration_policy_handler_unittest.cc:50-89 | a non-list is refused with one type error and no values; a list is accepted, with no errors iff every entry is a known string; every error names the policy |
| PolicyHandlers.CheckStringMappingList | src/chromium/src/components/policy/core/browser/configuration_policy_handler_unittest.cc:50-89 | accepted iff the value is a list; errors are empty iff it is a list of known strings; every error names the policy |
| PolicyHandlers.ApplyStringMappingList | src/chromium/src/components/policy/core/browser/configuration_policy_handler_unittest.cc:91-122 | a preference is written iff the value is a list, and it is the known entries' values in order |
| PolicyHandlers.MapEntriesAreKnownValues | src/chromium/src/components/policy/core/browser/configuration_policy_handler_unittest.cc:91-122 | the collected values are the reference list of known entries' values |
| PolicyHandlers.AppendExtendsApplied | src/chromium/src/components/policy/core/browser/configuration_policy_handler_unittest.cc:91-122 | appending entries appends their known values |
| PolicyHandlers.AppliedValuesAreMapped | src/chromium/src/components/policy/core/browser/configuration_policy_handler_unittest.cc:91-122 | no more values than entries, and every written value is the mapped value of some string entry of the list |
| PolicyHandlers.Clamp | src/chromium/src/components/policy/core/browser/configuration_policy_handler_unittest.cc:260-327 | the result lies in [min, max]; values in range are kept; values below become min and values above become max |
| PolicyHandlers.ClampIdempotent | src/chromium/src/components/policy/core/browser/configuration_policy_handler_unittest.cc:260-327 | clamping twice is clamping once |
| PolicyHandlers.ClampMonotone | src/chromium/src/components/policy/core/browser/configuration_policy_handler_unittest.cc:260-327 | clamping preserves order |
| PolicyHandlers.EnsureInRange | src/chromium/src/components/policy/core/browser/configuration_policy_handler_unittest.cc:124-258 | accepted iff an integer that is in range or clamped; no errors iff an integer in range; a non-integer is a type error and an out-of-range integer a range error; the value given back is the clamped one |
| PolicyHandlers.CheckIntRange | src/chromium/src/components/policy/core/browser/configuration_policy_handler_unittest.cc:124-258 | accepted iff an integer that is in range or clamped; out-of-range values are reported even when accepted; every error names the policy |
| PolicyHandlers.ApplyIntRange | src/chromium/src/components/policy/core/browser/configuration_policy_handler_unittest.cc:260-327 | a preference is written iff the check accepts; it is the clamped value, and an in-range value is written unchanged |
| PolicyHandlers.ApplyIsStable | src/chromium/src/components/policy/core/browser/configuration_policy_handler_unittest.cc:260-327 | a written value passes the same check cleanly and is written again unchanged |
| PolicyHandlers.CheckIntPercentageToDouble | src/chromium/src/components/policy/core/browser/configuration_policy_handler_unittest.cc:374-510 | the same verdict and errors as the integer-range check with the same bounds and clamping |
| PolicyHandlersScenarios.StringMappingListCheck | src/chromium/src/components/policy/core/browser/configuration_policy_handler_unittest.cc:50-89 | empty and known lists pass cleanly; an unknown string passes with an error for the policy; a non-list fails with an error |
| PolicyHandlersScenarios.StringMappingListApply | src/chromium/src/components/policy/core/browser/configuration_policy_handler_unittest.cc:91-122 | [] gives [], ["two"] gives [2], and ["two", "invalid"] gives [2] |
| PolicyHandlersScenarios.IntRangeCheckClamp | src/chromium/src/components/policy/core/browser/configuration_policy_handler_unittest.cc:124-190 | 0, 5 and 10 pass cleanly; -5 and 15 pass with an error; a string fails |
| PolicyHandlersScenarios.IntRangeCheckDontClamp | src/chromium/src/components/policy/core/browser/configuration_policy_handler_unittest.cc:192-258 | 0, 5 and 10 pass cleanly; -5, 15 and a string fail with an error |
| PolicyHandlersScenarios.IntRangeApplyClamp | src/chromium/src/components/policy/core/browser/configuration_policy_handler_unittest.cc:260-327 | 0, 5 and 10 are written unchanged; -5 is written as 0 and 15 as 10 |
| PolicyHandlersScenarios.IntPercentageToDoubleCheck | src/chromium/src/components/policy/core/browser/configuration_policy_handler_unittest.cc:374-510 | in both modes, 0, 5 and 10 pass cleanly; -5 and 15 are reported and pass only when clamping; a string fails |
| ChromiumRecipe.Split | depot_tools/recipes/chromium.py:30-31 | at least one piece, and no piece contains the separator |
| ChromiumRecipe.JoinSplit | depot_tools/recipes/chromium.py:30-31 | joining the pieces of a split gives back the string |
| ChromiumRecipe.SplitJoin | depot_tools/recipes/chromium.py:30-31 | splitting a join of separator-free pieces gives back the pieces |
| ChromiumRecipe.ChromiumFetchSpec | depot_tools/recipes/chromium.py:16-37 | kind gclient_git with one fixed solution named src; custom_vars present iff webkit_revision is ToT; target_os present iff that property is non-empty, and then its names, comma-free, joined back give the property; target_os_only present iff set, and then copied |
| ChromiumRecipe.ExpectedRoot | depot_tools/recipes/chromium.py:39-41 | the root is the name of the spec's single solution, for all properties |
| ChromiumRecipe.OnlyKnownPropertiesMatter | depot_tools/recipes/chromium.py:16-37 | changing a property other than webkit_revision, target_os and target_os_only leaves the spec unchanged |
| ChromiumRecipe.TargetOsIsSplit | depot_tools/recipes/chromium.py:30-31 | "android,ios" gives the target list ["android", "ios"] |

## Left out

- `base::Time`, the CryptAuth protocol buffers, `PrefService`, the
  enroller's network call, weak pointers and the sync scheduler's
  implementation (timers, backoff, jitter) are not part of this model. The
  scheduler is a status passed in, and a trace of calls coming out.
- The invocation-reason numbering follows the order of the CryptAuth
  protocol's enum (UNKNOWN = 0 to MANUAL = 13). That file is not part of
  this model.
- Time is kept in whole seconds. The fractional seconds and the double
  rounding of `ToDoubleT`/`FromDoubleT` are not modelled.
- CronetBufferedOutputStream.NewFixedLength / NewUnknownLength: the
  connection object is not modelled; only whether it is present is. The
  class stores it and never reads it again, so its null check is the only
  behaviour it adds.
- CronetBufferedOutputStream.Write: a null source array is not modelled,
  because the bytes to write are a sequence that is always present. Java
  would throw NullPointerException from the put, after any growth that
  ensureCanWrite has already done.
- CronetBufferedOutputStream: the `UploadDataSink` callbacks (`onReadSucceeded`,
  `onRewindSucceeded`) are not modelled. Nor is the Java exception type;
  each exception becomes a named error.
- CronetBufferedOutputStream.EnsureCanWrite: the int sums wrap as in Java,
  but an allocation that the JVM cannot satisfy (OutOfMemoryError near
  2 GB) is not modelled. Every non-negative size is allocated.
- CronetBufferedOutputStream.UnknownLengthKeepsEveryChunk: promised only
  when twice the whole body fits in an int, at most Integer.MAX_VALUE / 2
  bytes. Beyond that the growth sum can wrap, and a write can then fail.
- CronetBufferedOutputStream.Read: a destination whose limit is below its
  capacity can make the copy overflow, as in the source. This case is
  returned as an error, not an exception.
- TaskLogger: the lock around the id counter, the 32-bit wrap of the id,
  and the observer list itself are not modelled. An observer notification
  is returned as the logs it receives. The destructor is modelled as
  `ClearLog`.
- GpuTimingFake: the gmock expectation helpers (gpu_timing_fake.cc:42-105)
  are test wiring and are not modelled. The GLuint wrap of query ids is not
  modelled either. The disjoint flag is never initialised by the source, so
  `NewFake` takes its initial value as a parameter. The header's defaults
  for an idle elapsed query are taken as inactive, id 0, begin 0.
- DependencyGraph: the graph's implementation file is not part of this
  model. The tie-break (the first ready node in insertion order) is the
  model's own choice. It agrees with the five orders the unit test
  expects, but an implementation with another tie-break would agree with
  them too. No order exists on a cycle.
  Removing nodes is not modelled.
- DependencyGraph.OrderRespectsEdges: requires distinct nodes, because the
  tests register each node once.
- DependencyGraph.ConstructionOrderIsTopological: requires distinct nodes,
  for the same reason.
- PolicyHandlers: the handlers' implementation file is not part of this
  model. Absent policies and the non-clamping apply (the test named for it
  builds a clamping handler) are not modelled.
- PolicyHandlers.ApplyIntRange: with clamping off, an out-of-range value
  writes nothing. The tests do not fix this case.
- PolicyHandlers.CheckAndGetList: a non-string list entry is reported and
  dropped. The tests do not fix this case.
- The integer-percentage handler's apply produces a double, and floating
  point is not modelled. The schema-validating handler tests depend on a
  schema library that is not part of this model.
