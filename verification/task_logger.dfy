/** Sync FileSystem's task logger: a bounded FIFO history of task logs,
    each carrying an id from a process-wide counter, with observers told of
    every recorded log. */
module TaskLogger {
  import opened Wrappers

  /** The most entries the history keeps. */
  const MaxLogSize: int := 500

  /** The process-wide id counter; the first id handed out is 1. */
  datatype IdGenerator = IdGenerator(nextLogId: int)

  const InitialIdGenerator: IdGenerator := IdGenerator(1)

  /** A task log. Only the id matters to the logger; the description stands
      for the rest of the record. */
  datatype TaskLog = TaskLog(logId: int, description: string)

  /** Hands out the next id and advances the counter by one. */
  function GenerateLogId(g: IdGenerator): (r: (int, IdGenerator))
    ensures r.0 == g.nextLogId
    ensures r.1.nextLogId == r.0 + 1
  {
    (g.nextLogId, IdGenerator(g.nextLogId + 1))
  }

  /** Constructing a task log draws its id from the counter. */
  function NewTaskLog(g: IdGenerator, description: string): (r: (TaskLog, IdGenerator))
    ensures r.0.logId == g.nextLogId && r.0.description == description
    ensures r.1.nextLogId == g.nextLogId + 1
  {
    var (id, g') := GenerateLogId(g);
    (TaskLog(id, description), g')
  }

  /** Constructs one task log per description, in order. The ids are
      consecutive from the counter's next id, so they strictly increase in
      construction order, and the counter moves past all of them. */
  function NewTaskLogs(g: IdGenerator, descriptions: seq<string>): (r: (seq<TaskLog>, IdGenerator))
    ensures |r.0| == |descriptions|
    ensures forall i :: 0 <= i < |r.0| ==> r.0[i].logId == g.nextLogId + i
    ensures forall i, j :: 0 <= i < j < |r.0| ==> r.0[i].logId < r.0[j].logId
    ensures r.1.nextLogId == g.nextLogId + |descriptions|
    decreases |descriptions|
  {
    if |descriptions| == 0 then ([], g)
    else
      var (log, g') := NewTaskLog(g, descriptions[0]);
      var (rest, g'') := NewTaskLogs(g', descriptions[1..]);
      ([log] + rest, g'')
  }

  /** From a fresh process the ids are 1, 2, 3, ... */
  lemma IdsStartAtOne(descriptions: seq<string>)
    ensures forall i :: 0 <= i < |descriptions| ==> NewTaskLogs(InitialIdGenerator, descriptions).0[i].logId == i + 1
  {
  }

  datatype Logger = Logger(history: seq<TaskLog>) {
    ghost predicate Valid() {
      |history| <= MaxLogSize
    }
  }

  /** A new logger has an empty history. */
  function NewLogger(): (l: Logger)
    ensures l.Valid() && l.history == []
  {
    Logger([])
  }

  /** Records a log: a null log is ignored; otherwise, when the history is
      full the oldest entry is dropped, the new entry goes to the back, and
      observers are told once of that entry. The second component is the
      sequence of entries observers were told of. */
  function RecordLog(l: Logger, log: Option<TaskLog>): (r: (Logger, seq<TaskLog>))
    ensures log.None? ==> r == (l, [])
    ensures log.Some? ==> r.1 == [log.value] && |r.0.history| > 0 && r.0.history[|r.0.history| - 1] == log.value
    ensures log.Some? && |l.history| >= MaxLogSize ==> r.0.history == l.history[1..] + [log.value]
    ensures log.Some? && |l.history| < MaxLogSize ==> r.0.history == l.history + [log.value]
    ensures l.Valid() ==> r.0.Valid()
  {
    match log
    case None => (l, [])
    case Some(entry) =>
      var kept := if |l.history| >= MaxLogSize then l.history[1..] else l.history;
      (Logger(kept + [entry]), [entry])
  }

  /** Empties the history; the destructor does the same. */
  function ClearLog(l: Logger): (r: Logger)
    ensures r.Valid() && |r.history| == 0
  {
    Logger([])
  }

  /** The history, oldest entry first. */
  function GetLog(l: Logger): (h: seq<TaskLog>)
    requires l.Valid()
    ensures |h| <= MaxLogSize
    ensures h == l.history
  {
    l.history
  }

  // ---------------------------------------------------------------------
  // The history as a sliding window over everything recorded.
  // ---------------------------------------------------------------------

  /** The non-null logs, in order. */
  function Present(logs: seq<Option<TaskLog>>): seq<TaskLog>
    decreases |logs|
  {
    if |logs| == 0 then []
    else (if logs[0].Some? then [logs[0].value] else []) + Present(logs[1..])
  }

  /** The last `n` elements of `s` (all of them when there are fewer). */
  function LastN(s: seq<TaskLog>, n: nat): (r: seq<TaskLog>)
    ensures |r| <= n && |r| <= |s|
  {
    if |s| <= n then s else s[|s| - n..]
  }

  /** Records the logs in order, collecting the notifications. */
  function RecordAll(l: Logger, logs: seq<Option<TaskLog>>): (r: (Logger, seq<TaskLog>))
    decreases |logs|
  {
    if |logs| == 0 then (l, [])
    else
      var (l', notified) := RecordLog(l, logs[0]);
      var (l'', rest) := RecordAll(l', logs[1..]);
      (l'', notified + rest)
  }

  lemma LastNOfLastN(a: seq<TaskLog>, b: seq<TaskLog>, n: nat)
    ensures LastN(LastN(a, n) + b, n) == LastN(a + b, n)
  {
    if |a| > n {
      var a' := a[|a| - n..];
      assert a + b == a[..|a| - n] + (a' + b);
      assert (a + b)[|a + b| - n..] == (a' + b)[|a' + b| - n..];
    }
  }

  /** One record step keeps the window: the history after recording is the
      last 500 of the history before plus the new log. */
  lemma RecordLogIsWindow(l: Logger, log: Option<TaskLog>)
    requires l.Valid()
    ensures RecordLog(l, log).0.history == LastN(l.history + Present([log]), MaxLogSize)
  {
    assert Present([log]) == (if log.Some? then [log.value] else []) + Present([]);
  }

  /** Whatever sequence of logs is recorded, the history is exactly the
      last 500 non-null ones (after those already there), in order, and
      observers are told of every non-null log once, in order. */
  lemma {:induction false} HistoryIsLastWindow(l: Logger, logs: seq<Option<TaskLog>>)
    requires l.Valid()
    ensures RecordAll(l, logs).0.history == LastN(l.history + Present(logs), MaxLogSize)
    ensures RecordAll(l, logs).1 == Present(logs)
    ensures RecordAll(l, logs).0.Valid()
    decreases |logs|
  {
    if |logs| == 0 {
      assert LastN(l.history, MaxLogSize) == l.history;
    } else {
      var (l', _) := RecordLog(l, logs[0]);
      RecordLogIsWindow(l, logs[0]);
      HistoryIsLastWindow(l', logs[1..]);
      LastNOfLastN(l.history + Present([logs[0]]), Present(logs[1..]), MaxLogSize);
      assert Present(logs) == Present([logs[0]]) + Present(logs[1..]) by {
        assert Present([logs[0]]) == (if logs[0].Some? then [logs[0].value] else []) + Present([]);
      }
      assert l.history + Present(logs) == (l.history + Present([logs[0]])) + Present(logs[1..]);
    }
  }
}
