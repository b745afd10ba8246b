/** The HTTP side of the password service (2lab/app/api/brut.py): starting a
    brute-force task and reading its status back. The task queue appears
    only through the state it reports for a task; the database is the map
    of task records kept by `TaskStore`. */
module BrutApi {
  import opened Wrappers
  import BruteForce

  /** A row of `brut_tasks`: `progress` and `result` are nullable columns. */
  datatype TaskRecord = TaskRecord(status: string, progress: Option<int>, result: Option<string>)

  /** The row `create_brut_task` inserts: the column defaults. */
  const NewRecord := TaskRecord("running", Some(0), None)

  /** The dictionary a task reports (its `info` while running, its return
      value when done). `None` is an absent key; `result` can also be
      present and `None`. `otherKeys` stands for keys the lookups ignore. */
  datatype Meta = Meta(progress: Option<int>, status: Option<string>,
                       result: Option<Option<string>>, otherKeys: bool)
  {
    /** Python truthiness of the dictionary: it is non-empty. */
    predicate Truthy() {
      progress.Some? || status.Some? || result.Some? || otherKeys
    }
  }

  /** The state the task queue reports for a task id. */
  datatype CeleryState =
    | Pending
    | Progress(info: Meta)
    | Success(meta: Meta)
    | Failure
    | OtherState(name: string)

  /** `BrutStatusResponse`. */
  datatype Status = Status(status: string, progress: int, result: string)

  /** What `get_status` answers and the row it writes, if any. */
  datatype Decision = Decision(response: Status, update: Option<TaskRecord>)

  /** The branch chain of `get_status` for an existing record. */
  function Decide(state: CeleryState, record: TaskRecord): (d: Decision)
    // terminal states write the row, all others leave it alone
    ensures d.update.Some? <==> state.Success? || state.Failure?
    // the row written after success is exactly what is reported
    ensures state.Success? ==>
      d.update == Some(TaskRecord(d.response.status, Some(d.response.progress), Some(d.response.result)))
    // a failure is reported as such, with the stored progress (`or 0`), and
    // stored with an empty result
    ensures state.Failure? ==>
      && d.response.status == "failed" && d.response.progress == record.progress.GetOr(0)
      && d.update == Some(TaskRecord("failed", Some(record.progress.GetOr(0)), Some("")))
    // before success, the result text is the stored one, with `None` read as ""
    ensures !state.Success? ==> d.response.result == record.result.GetOr("")
    // a running task's progress comes from its info when that carries one
    ensures state.Progress? ==>
      d.response == Status("running",
        if state.info.progress.Some? then state.info.progress.value else record.progress.GetOr(0),
        record.result.GetOr(""))
    // without news from the task, the stored values are reported as pending
    ensures state.Pending? || state.OtherState? ==>
      d.response == Status("pending", record.progress.GetOr(0), record.result.GetOr(""))
    // a success with a return value reports its keys, an absent key read as
    // "completed", 100 or "", and a `None` result as ""
    ensures state.Success? && state.meta.Truthy() ==>
      && d.response.status == state.meta.status.GetOr("completed")
      && d.response.progress == state.meta.progress.GetOr(100)
      && d.response.result == (if state.meta.result.Some? && state.meta.result.value.Some?
                               then state.meta.result.value.value else "")
    // a success without a return value counts as complete
    ensures state.Success? && !state.meta.Truthy() ==>
      d.response == Status("completed", 100, record.result.GetOr(""))
  {
    var progress := record.progress.GetOr(0);
    var result := record.result.GetOr("");
    match state
    case Pending =>
      Decision(Status("pending", progress, result), None)
    case Progress(info) =>
      var p := if info.Truthy() then info.progress.GetOr(progress) else progress;
      Decision(Status("running", p, result), None)
    case Success(meta) =>
      var s :=
        if meta.Truthy() then
          Status(meta.status.GetOr("completed"), meta.progress.GetOr(100), meta.result.GetOr(Some("")).GetOr(""))
        else Status("completed", 100, result);
      Decision(s, Some(TaskRecord(s.status, Some(s.progress), Some(s.result))))
    case Failure =>
      Decision(Status("failed", progress, result), Some(TaskRecord("failed", Some(progress), Some(""))))
    case OtherState(_) =>
      Decision(Status("pending", progress, result), None)
  }

  /** The row after `get_status` has applied its decision. */
  function Apply(d: Decision, record: TaskRecord): TaskRecord {
    d.update.GetOr(record)
  }

  /** Polling a finished task again gives the same answer and writes the
      same row. */
  lemma {:induction false} SuccessPollIdempotent(meta: Meta, record: TaskRecord)
    ensures var d := Decide(Success(meta), record);
      Decide(Success(meta), Apply(d, record)) == d
  {
    var d := Decide(Success(meta), record);
    var again := Apply(d, record);
    assert again.result.GetOr("") == d.response.result;
  }

  /** After a failure the row keeps the reported progress, but a second poll
      reports an empty result whatever the first one showed. */
  lemma FailurePollForgetsResult(record: TaskRecord)
    ensures var d := Decide(Failure, record);
      var d' := Decide(Failure, Apply(d, record));
      d'.response == Status("failed", d.response.progress, "") &&
      d'.update == d.update
  {
  }

  /** The task's return value as the queue reports it: a dictionary with
      exactly the three keys `result`, `progress` and `status`. */
  function MetaOf(t: BruteForce.TaskOutput): (m: Meta)
    ensures m.Truthy()
  {
    Meta(Some(t.progress), Some(t.status), Some(Some(t.result)), false)
  }

  /** Once the brute-force task has finished, `get_status` reports
      "completed" with the password "test" exactly when that password is
      reachable from the request, and "failed" with an empty result
      otherwise; the progress is 100 either way. */
  lemma TaskOutcomeReported(charset: string, maxLength: int, record: TaskRecord)
    ensures var s := Decide(Success(MetaOf(BruteForce.Outcome(charset, maxLength))), record).response;
      s.progress == 100 &&
      (s == Status("completed", 100, "test") <==> maxLength >= 4 && 't' in charset && 'e' in charset && 's' in charset) &&
      (s != Status("completed", 100, "test") ==> s == Status("failed", 100, ""))
  {
  }

  /** While the task runs, every progress value it reports reaches the
      client as a percentage between 0 and 100. */
  lemma RunningProgressInRange(charset: string, maxLength: int, j: nat, record: TaskRecord)
    requires j < |BruteForce.Reports(BruteForce.Scanned(charset, maxLength), BruteForce.Total(|charset|, maxLength))|
    ensures var p := BruteForce.Reports(BruteForce.Scanned(charset, maxLength), BruteForce.Total(|charset|, maxLength))[j];
      var s := Decide(Progress(Meta(Some(p), None, None, false)), record).response;
      s.status == "running" && 0 <= s.progress <= 100
  {
    BruteForce.ReportsShape(BruteForce.Scanned(charset, maxLength), BruteForce.Total(|charset|, maxLength));
  }

  /** `BrutRequest`. */
  datatype BrutRequest = BrutRequest(hash: string, charset: string, maxLength: int)

  /** The answers of `start_brut`: the new task id, the 400 of the length
      guard, or a server error when the id is already stored. */
  datatype StartResponse = Started(taskId: string) | LengthRejected | StartFailed

  /** The answers of `get_status`: a status, or the 500 it gives for every
      error, the unknown task id included. */
  datatype StatusResponse = StatusOk(status: Status) | StatusError

  /** The `brut_tasks` table, keyed by task id. */
  class TaskStore {
    var records: map<string, TaskRecord>

    constructor()
      ensures records == map[]
    {
      records := map[];
    }

    /** `start_brut`. The fresh id `uuid4` would draw is a parameter; a
        clash with a stored id breaks the unique constraint. */
    method StartBrut(request: BrutRequest, freshId: string) returns (r: StartResponse)
      modifies this
      ensures request.maxLength > 8 ==> r == LengthRejected && records == old(records)
      ensures request.maxLength <= 8 && freshId in old(records) ==>
        r == StartFailed && records == old(records)
      ensures request.maxLength <= 8 && freshId !in old(records) ==>
        r == Started(freshId) && records == old(records)[freshId := NewRecord]
    {
      if request.maxLength > 8 {
        return LengthRejected;
      }
      if freshId in records {
        return StartFailed;
      }
      records := records[freshId := NewRecord];
      r := Started(freshId);
    }

    /** `get_status`, given the state the queue reports for the id. */
    method GetStatus(taskId: string, state: CeleryState) returns (r: StatusResponse)
      modifies this
      ensures taskId !in old(records) ==> r == StatusError && records == old(records)
      ensures taskId in old(records) ==>
        var d := Decide(state, old(records)[taskId]);
        r == StatusOk(d.response) && records == old(records)[taskId := Apply(d, old(records)[taskId])]
    {
      if taskId !in records {
        return StatusError;
      }
      var record := records[taskId];
      var d := Decide(state, record);
      if d.update.Some? {
        records := records[taskId := d.update.value];
      }
      r := StatusOk(d.response);
    }
  }

  /** A task id is answered from the moment `start_brut` accepts it, and
      before the queue reports anything it reads as pending with progress 0
      and an empty result. */
  method StartThenPoll(store: TaskStore, request: BrutRequest, freshId: string)
    returns (started: StartResponse, polled: StatusResponse)
    requires request.maxLength <= 8 && freshId !in store.records
    modifies store
    ensures started == Started(freshId)
    ensures polled == StatusOk(Status("pending", 0, ""))
    ensures store.records == old(store.records)[freshId := NewRecord]
  {
    started := store.StartBrut(request, freshId);
    polled := store.GetStatus(freshId, Pending);
  }
}
