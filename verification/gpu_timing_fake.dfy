/** The fake GL timer-query back end used by the GPU timing tests: it hands
    out query ids, runs time-elapsed queries between a begin and an end,
    records timestamp queries, answers result-availability and result
    questions against a settable GL clock, and reports a disjoint flag that
    is cleared when read.

    A handler that hits a gtest assertion or FAIL() returns at that point
    without further effect; the model returns the matching FakeError and
    leaves the fake unchanged. */
module GpuTimingFake {
  import opened Wrappers

  const GlNoError: int := 0
  const GlQueryResult: int := 0x8866
  const GlQueryResultAvailable: int := 0x8867
  const GlTimeElapsed: int := 0x88BF
  const GlTimestamp: int := 0x8E28
  const GlGpuDisjoint: int := 0x8FBB

  /** The first query id a reset fake hands out. */
  const FirstQueryId: int := 23

  /** 2^64: results are returned as GLuint64. */
  const Uint64Modulus: int := 0x1_0000_0000_0000_0000

  datatype QueryResultType = TimeStampResult | ElapsedResult

  /** A recorded result: for an elapsed query `value` is the end time and
      `beginTime` the start; for a timestamp `value` is the time. */
  datatype QueryResult = QueryResult(kind: QueryResultType, beginTime: int, value: int)

  /** The elapsed query currently being timed, if `active`. */
  datatype ElapsedQuery = ElapsedQuery(active: bool, queryId: int, beginTime: int)

  /** A reset elapsed query. */
  const IdleElapsedQuery: ElapsedQuery := ElapsedQuery(false, 0, 0)

  datatype FakeError =
    | InvalidTarget
    | InvalidParameter
    | QueryAlreadyActive
    | NoActiveQuery
    | QueryNotAllocated
    | MissingResult

  datatype Fake = Fake(
    currentTime: int,
    nextQueryId: int,
    allocatedQueries: set<int>,
    results: map<int, QueryResult>,
    currentElapsed: ElapsedQuery,
    disjointed: bool)
  {
    /** Every allocated id lies below the next id to hand out. */
    ghost predicate Valid() {
      forall id :: id in allocatedQueries ==> id < nextQueryId
    }
  }

  /** Time 0, next id 23, no allocated queries or results, no elapsed
      query in progress. The disjoint flag is not touched. */
  function Reset(f: Fake): (r: Fake)
    ensures r.Valid()
    ensures r.currentTime == 0 && r.nextQueryId == FirstQueryId
    ensures r.allocatedQueries == {} && r.results == map[]
    ensures !r.currentElapsed.active
    ensures r.disjointed == f.disjointed
  {
    Fake(0, FirstQueryId, {}, map[], IdleElapsedQuery, f.disjointed)
  }

  /** The constructor resets the fake. The disjoint flag is never
      initialised by it, so its first value is a parameter. */
  function NewFake(initialDisjointed: bool): (r: Fake)
    ensures r.Valid() && r == Reset(r)
  {
    Reset(Fake(0, 0, {}, map[], IdleElapsedQuery, initialDisjointed))
  }

  function SetCurrentGLTime(f: Fake, t: int): (r: Fake)
    ensures r == f.(currentTime := t)
  {
    f.(currentTime := t)
  }

  function SetDisjoint(f: Fake): (r: Fake)
    ensures r == f.(disjointed := true)
  {
    f.(disjointed := true)
  }

  /** glGenQueries: hands out `n` consecutive ids from the next id, marks
      each allocated and advances the next id past them. */
  method GenQueries(f: Fake, n: int) returns (r: Fake, ids: seq<int>)
    ensures |ids| == (if n < 0 then 0 else n)
    ensures forall i :: 0 <= i < |ids| ==> ids[i] == f.nextQueryId + i
    ensures r.nextQueryId == f.nextQueryId + |ids|
    ensures forall id :: id in r.allocatedQueries <==> id in f.allocatedQueries || id in ids
    ensures r == f.(nextQueryId := r.nextQueryId, allocatedQueries := r.allocatedQueries)
    ensures f.Valid() ==> r.Valid()
  {
    r := f;
    ids := [];
    var i := 0;
    while i < n
      invariant 0 <= i && (n >= 0 ==> i <= n) && (n < 0 ==> i == 0)
      invariant |ids| == i
      invariant forall k :: 0 <= k < i ==> ids[k] == f.nextQueryId + k
      invariant r.nextQueryId == f.nextQueryId + i
      invariant forall id :: id in r.allocatedQueries <==> id in f.allocatedQueries || id in ids
      invariant r == f.(nextQueryId := r.nextQueryId, allocatedQueries := r.allocatedQueries)
      invariant f.Valid() ==> r.Valid()
    {
      var id := r.nextQueryId;
      r := r.(nextQueryId := r.nextQueryId + 1, allocatedQueries := r.allocatedQueries + {id});
      ids := ids + [id];
      i := i + 1;
    }
  }

  /** glDeleteQueries: each id is freed and its result dropped; an elapsed
      query with that id is reset. */
  method DeleteQueries(f: Fake, ids: seq<int>) returns (r: Fake)
    ensures forall id :: id in r.allocatedQueries <==> id in f.allocatedQueries && id !in ids
    ensures forall id :: id in r.results <==> id in f.results && id !in ids
    ensures forall id :: id in r.results ==> r.results[id] == f.results[id]
    ensures r.currentElapsed == if f.currentElapsed.queryId in ids then IdleElapsedQuery else f.currentElapsed
    ensures r.currentTime == f.currentTime && r.nextQueryId == f.nextQueryId && r.disjointed == f.disjointed
    ensures f.Valid() ==> r.Valid()
  {
    r := f;
    var i := 0;
    while i < |ids|
      invariant 0 <= i <= |ids|
      invariant forall id :: id in r.allocatedQueries <==> id in f.allocatedQueries && id !in ids[..i]
      invariant forall id :: id in r.results <==> id in f.results && id !in ids[..i]
      invariant forall id :: id in r.results ==> r.results[id] == f.results[id]
      invariant r.currentElapsed == if f.currentElapsed.queryId in ids[..i] then IdleElapsedQuery else f.currentElapsed
      invariant r.currentTime == f.currentTime && r.nextQueryId == f.nextQueryId && r.disjointed == f.disjointed
      invariant f.Valid() ==> r.Valid()
    {
      var id := ids[i];
      var elapsed := if r.currentElapsed.queryId == id then IdleElapsedQuery else r.currentElapsed;
      r := r.(allocatedQueries := r.allocatedQueries - {id}, results := r.results - {id}, currentElapsed := elapsed);
      assert ids[..i + 1] == ids[..i] + [id];
      i := i + 1;
    }
    assert ids[..i] == ids;
  }

  /** glBeginQuery(GL_TIME_ELAPSED, id): starts timing `id` from the current
      GL time; only one elapsed query may be in progress. */
  function BeginQuery(f: Fake, target: int, id: int): (r: Result<Fake, FakeError>)
    ensures target != GlTimeElapsed ==> r == Failure(InvalidTarget)
    ensures target == GlTimeElapsed && f.currentElapsed.active ==> r == Failure(QueryAlreadyActive)
    ensures target == GlTimeElapsed && !f.currentElapsed.active ==>
      r == Success(f.(currentElapsed := ElapsedQuery(true, id, f.currentTime)))
  {
    if target != GlTimeElapsed then Failure(InvalidTarget)
    else if f.currentElapsed.active then Failure(QueryAlreadyActive)
    else Success(f.(currentElapsed := ElapsedQuery(true, id, f.currentTime)))
  }

  /** glEndQuery(GL_TIME_ELAPSED): records an elapsed result from the begin
      time to the current time for the active query, which stops. */
  function EndQuery(f: Fake, target: int): (r: Result<Fake, FakeError>)
    ensures target != GlTimeElapsed ==> r == Failure(InvalidTarget)
    ensures target == GlTimeElapsed && !f.currentElapsed.active ==> r == Failure(NoActiveQuery)
    ensures target == GlTimeElapsed && f.currentElapsed.active ==>
      && r.Success?
      && r.value.results == f.results[f.currentElapsed.queryId :=
           QueryResult(ElapsedResult, f.currentElapsed.beginTime, f.currentTime)]
      && r.value.currentElapsed == f.currentElapsed.(active := false)
      && r.value == f.(results := r.value.results, currentElapsed := r.value.currentElapsed)
  {
    if target != GlTimeElapsed then Failure(InvalidTarget)
    else if !f.currentElapsed.active then Failure(NoActiveQuery)
    else
      var q := f.currentElapsed;
      Success(f.(results := f.results[q.queryId := QueryResult(ElapsedResult, q.beginTime, f.currentTime)],
                 currentElapsed := q.(active := false)))
  }

  /** glGetQueryObjectiv(id, GL_QUERY_RESULT_AVAILABLE): 1 exactly when a
      result exists for `id` and its value is not after the current time. */
  function QueryResultAvailable(f: Fake, id: int, pname: int): (r: Result<int, FakeError>)
    ensures pname != GlQueryResultAvailable ==> r == Failure(InvalidParameter)
    ensures pname == GlQueryResultAvailable ==> r.Success? && r.value in {0, 1}
    ensures pname == GlQueryResultAvailable ==>
      (r.value == 1 <==> id in f.results && f.results[id].value <= f.currentTime)
  {
    if pname != GlQueryResultAvailable then Failure(InvalidParameter)
    else if id in f.results && f.results[id].value <= f.currentTime then Success(1)
    else Success(0)
  }

  /** glQueryCounter(id, GL_TIMESTAMP): `id` must be allocated; records a
      timestamp result equal to the current time. A result already stored
      for `id` keeps its begin time, which timestamps do not use. */
  function QueryCounter(f: Fake, id: int, target: int): (r: Result<Fake, FakeError>)
    ensures target != GlTimestamp ==> r == Failure(InvalidTarget)
    ensures target == GlTimestamp && id !in f.allocatedQueries ==> r == Failure(QueryNotAllocated)
    ensures target == GlTimestamp && id in f.allocatedQueries ==>
      && r.Success?
      && id in r.value.results
      && r.value.results[id].kind == TimeStampResult
      && r.value.results[id].value == f.currentTime
      && (forall other :: other != id ==> (other in r.value.results <==> other in f.results))
      && (forall other :: other != id && other in f.results ==> r.value.results[other] == f.results[other])
      && r.value == f.(results := r.value.results)
  {
    if target != GlTimestamp then Failure(InvalidTarget)
    else if id !in f.allocatedQueries then Failure(QueryNotAllocated)
    else
      var begin := if id in f.results then f.results[id].beginTime else 0;
      Success(f.(results := f.results[id := QueryResult(TimeStampResult, begin, f.currentTime)]))
  }

  /** glGetInteger64v(GL_TIMESTAMP): the current GL time. */
  function GetInteger64v(f: Fake, pname: int): (r: Result<int, FakeError>)
    ensures pname == GlTimestamp <==> r == Success(f.currentTime)
    ensures pname != GlTimestamp ==> r == Failure(InvalidParameter)
  {
    if pname == GlTimestamp then Success(f.currentTime) else Failure(InvalidParameter)
  }

  /** A 64-bit signed quantity stored into a GLuint64. */
  function ToUint64(x: int): (u: int)
    ensures 0 <= u < Uint64Modulus
    ensures 0 <= x < Uint64Modulus ==> u == x
    ensures -Uint64Modulus <= x < 0 ==> u == x + Uint64Modulus
    ensures (u - x) % Uint64Modulus == 0
  {
    x % Uint64Modulus
  }

  /** glGetQueryObjectui64v(id, GL_QUERY_RESULT): a timestamp's time, or an
      elapsed query's end minus begin; a missing result fails the test. */
  function QueryResultValue(f: Fake, id: int, pname: int): (r: Result<int, FakeError>)
    ensures pname != GlQueryResult ==> r == Failure(InvalidParameter)
    ensures pname == GlQueryResult && id !in f.results ==> r == Failure(MissingResult)
    ensures pname == GlQueryResult && id in f.results ==>
      && r.Success?
      && 0 <= r.value < Uint64Modulus
      && (f.results[id].kind == TimeStampResult ==> r.value == ToUint64(f.results[id].value))
      && (f.results[id].kind == ElapsedResult ==> r.value == ToUint64(f.results[id].value - f.results[id].beginTime))
  {
    if pname != GlQueryResult then Failure(InvalidParameter)
    else if id !in f.results then Failure(MissingResult)
    else
      var q := f.results[id];
      match q.kind
      case TimeStampResult => Success(ToUint64(q.value))
      case ElapsedResult => Success(ToUint64(q.value - q.beginTime))
  }

  /** glGetIntegerv(GL_GPU_DISJOINT_EXT): the disjoint flag as 0 or 1, which
      the read clears. */
  function GetIntegerv(f: Fake, pname: int): (r: Result<(int, Fake), FakeError>)
    ensures pname != GlGpuDisjoint ==> r == Failure(InvalidParameter)
    ensures pname == GlGpuDisjoint ==>
      r == Success((if f.disjointed then 1 else 0, f.(disjointed := false)))
  {
    if pname != GlGpuDisjoint then Failure(InvalidParameter)
    else Success((if f.disjointed then 1 else 0, f.(disjointed := false)))
  }

  /** glGetError: never reports an error. */
  function GetError(f: Fake): (e: int)
    ensures e == GlNoError
  {
    GlNoError
  }

  // ---------------------------------------------------------------------
  // Properties relating several operations.
  // ---------------------------------------------------------------------

  /** Freshly generated ids were not allocated before. */
  method FreshIds(f: Fake, n: int) returns (r: Fake, ids: seq<int>)
    requires f.Valid()
    ensures r.Valid()
    ensures forall i :: 0 <= i < |ids| ==> ids[i] !in f.allocatedQueries && ids[i] in r.allocatedQueries
    ensures |ids| == (if n < 0 then 0 else n)
  {
    r, ids := GenQueries(f, n);
  }

  /** Generating ids and deleting them again restores the allocated set. */
  method GenThenDelete(f: Fake, n: int) returns (r: Fake)
    requires f.Valid()
    ensures r.allocatedQueries == f.allocatedQueries
    ensures r.Valid()
  {
    var ids;
    r, ids := GenQueries(f, n);
    r := DeleteQueries(r, ids);
    forall id | id in ids
      ensures id !in f.allocatedQueries
    {
      var k :| 0 <= k < |ids| && ids[k] == id;
    }
    assert forall id :: id in r.allocatedQueries <==> id in f.allocatedQueries;
  }

  /** An elapsed query timed from `t0` to `t1` (t0 <= t1, both
      representable) has a result available at `t1` equal to t1 - t0, and no
      result is available once the clock is set back before `t1`. */
  lemma ElapsedQueryMeasuresSpan(f: Fake, id: int, t0: int, t1: int, earlier: int)
    requires !f.currentElapsed.active
    requires 0 <= t1 - t0 < Uint64Modulus
    requires earlier < t1
    ensures
      var begun := BeginQuery(SetCurrentGLTime(f, t0), GlTimeElapsed, id).value;
      var ended := EndQuery(SetCurrentGLTime(begun, t1), GlTimeElapsed).value;
      && QueryResultAvailable(ended, id, GlQueryResultAvailable) == Success(1)
      && QueryResultValue(ended, id, GlQueryResult) == Success(t1 - t0)
      && QueryResultAvailable(SetCurrentGLTime(ended, earlier), id, GlQueryResultAvailable) == Success(0)
      && !ended.currentElapsed.active
  {
  }

  /** When the clock is set back between begin and end, the negative span
      is stored into the unsigned result and so reads back as 2^64 minus
      the span. */
  lemma ClockSetBackWrapsElapsed(f: Fake, id: int, t0: int, t1: int)
    requires !f.currentElapsed.active
    requires t1 < t0 && t0 - t1 <= Uint64Modulus
    ensures
      var begun := BeginQuery(SetCurrentGLTime(f, t0), GlTimeElapsed, id).value;
      var ended := EndQuery(SetCurrentGLTime(begun, t1), GlTimeElapsed).value;
      QueryResultValue(ended, id, GlQueryResult) == Success(Uint64Modulus - (t0 - t1))
  {
  }

  /** A timestamp query on an allocated id is available at once and holds
      the time it was issued (a non-negative GL time). */
  lemma TimestampHoldsIssueTime(f: Fake, id: int)
    requires id in f.allocatedQueries
    requires 0 <= f.currentTime < Uint64Modulus
    ensures
      var stamped := QueryCounter(f, id, GlTimestamp).value;
      && QueryResultAvailable(stamped, id, GlQueryResultAvailable) == Success(1)
      && QueryResultValue(stamped, id, GlQueryResult) == Success(f.currentTime)
  {
  }

  /** The disjoint flag is read once: after SetDisjoint the first read gives
      1 and the second 0. */
  lemma DisjointIsReadAndCleared(f: Fake)
    ensures
      var (first, f1) := GetIntegerv(SetDisjoint(f), GlGpuDisjoint).value;
      var (second, _) := GetIntegerv(f1, GlGpuDisjoint).value;
      first == 1 && second == 0
  {
  }
}
