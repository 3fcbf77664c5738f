/** Hadoop ids (`job_…`, `task_…`, `attempt_…`) as found in log records:
    the recency sort key, the sort by recency, and the derivation of the
    task and job ids a record implies. */
module Ids {
  import opened PyStr
  import opened PySorted

  /** A dictionary of ids as a log matcher returns it. A key that is absent
      and a key mapped to "" are both falsy for the source's `d.get(k)`. */
  type IdMap = map<string, string>

  const ATTEMPT_ID := "attempt_id"
  const TASK_ID := "task_id"
  const JOB_ID := "job_id"
  const APPLICATION_ID := "application_id"
  const CONTAINER_ID := "container_id"

  /** `d.get(k)` is truthy. */
  predicate Has(d: IdMap, k: string)
    ensures Has(d, k) <==> GetOrEmpty(d, k) != ""
  {
    k in d && d[k] != ""
  }

  /** `d.get(k) or ''`: the stored value when the key is present (a stored
      `""` stays `""`), and `""` for a missing key. */
  function GetOrEmpty(d: IdMap, k: string): (v: string)
    ensures k in d ==> v == d[k]
    ensures v == "" || (k in d && v == d[k])
  {
    if k in d then d[k] else ""
  }

  /** The tuple `_time_sort_key` returns, component by component. */
  datatype SortKey = SortKey(
    applicationId: string,
    containerId: string,
    timestampAndStep: string,
    taskType: string,
    attemptNum: string,
    taskNum: string)
  {
    /** The key as the Python tuple it stands for. */
    function AsTuple(): seq<string>
    {
      [applicationId, containerId, timestampAndStep, taskType, attemptNum, taskNum]
    }
  }

  /** `d.get('attempt_id') or d.get('task_id') or d.get('job_id') or ''`:
      the first non-empty id, most specific first. */
  function MostSpecificId(d: IdMap): (id: string)
    ensures id == "" <==> !Has(d, ATTEMPT_ID) && !Has(d, TASK_ID) && !Has(d, JOB_ID)
    ensures Has(d, ATTEMPT_ID) ==> id == d[ATTEMPT_ID]
    ensures !Has(d, ATTEMPT_ID) && Has(d, TASK_ID) ==> id == d[TASK_ID]
    ensures !Has(d, ATTEMPT_ID) && !Has(d, TASK_ID) && Has(d, JOB_ID) ==> id == d[JOB_ID]
  {
    if Has(d, ATTEMPT_ID) then d[ATTEMPT_ID]
    else if Has(d, TASK_ID) then d[TASK_ID]
    else if Has(d, JOB_ID) then d[JOB_ID]
    else ""
  }

  /** `_time_sort_key`: sorting by this key puts records roughly in time
      order, earliest first. The id is split on '_' and its fields are
      placed in the key; `attemptNum` comes before `taskNum`. */
  function TimeSortKey(d: IdMap): (k: SortKey)
    ensures k.applicationId == GetOrEmpty(d, APPLICATION_ID)
    ensures k.containerId == GetOrEmpty(d, CONTAINER_ID)
    ensures var f := Split(MostSpecificId(d), '_');
      && k.timestampAndStep == (if |f| >= 3 then f[1] + "_" + f[2] else Field(f, 1))
      && k.taskType == Field(f, 3)
      && k.taskNum == Field(f, 4)
      && k.attemptNum == Field(f, 5)
    ensures '_' !in k.taskType && '_' !in k.taskNum && '_' !in k.attemptNum
  {
    var parts := Split(MostSpecificId(d), '_');
    JoinPairSlice('_', parts, 1);
    JoinSingleSlice('_', parts, 3);
    JoinSingleSlice('_', parts, 4);
    JoinSingleSlice('_', parts, 5);
    SortKey(
      GetOrEmpty(d, APPLICATION_ID),
      GetOrEmpty(d, CONTAINER_ID),
      Join('_', Slice(parts, 1, 3)),
      Join('_', Slice(parts, 3, 4)),
      Join('_', Slice(parts, 5, 6)),
      Join('_', Slice(parts, 4, 5)))
  }

  /** A record with no attempt, task or job id gets "" for every
      id-derived component, so it sorts with the oldest. */
  lemma TimeSortKeyWithoutIds(d: IdMap)
    requires !Has(d, ATTEMPT_ID) && !Has(d, TASK_ID) && !Has(d, JOB_ID)
    ensures var k := TimeSortKey(d);
      k.timestampAndStep == "" && k.taskType == "" && k.attemptNum == "" && k.taskNum == ""
  {
    assert Split("", '_') == [""];
  }

  /** The key of a record holding only an attempt id
      `attempt_<timestamp>_<step>_<type>_<task>_<attempt>` (the docstring
      example has this shape): the attempt number is placed ahead of the
      task number. */
  lemma TimeSortKeyOfAttemptId(timestamp: string, step: string, taskType: string, taskNum: string, attemptNum: string)
    requires '_' !in timestamp && '_' !in step && '_' !in taskType && '_' !in taskNum && '_' !in attemptNum
    ensures TimeSortKey(map[ATTEMPT_ID := Join('_', ["attempt", timestamp, step, taskType, taskNum, attemptNum])])
      == SortKey("", "", timestamp + "_" + step, taskType, attemptNum, taskNum)
  {
    var fields := ["attempt", timestamp, step, taskType, taskNum, attemptNum];
    var d := map[ATTEMPT_ID := Join('_', fields)];
    JoinUnfold('_', fields);
    assert Has(d, ATTEMPT_ID);
    SplitJoin('_', fields);
  }

  /** With the application id, container id, timestamp-and-step and task type
      equal, a later attempt number gives a later key whatever the task
      numbers: a task's final attempt outranks the task's position. */
  lemma AttemptNumDominatesTaskNum(a: SortKey, b: SortKey)
    requires a.applicationId == b.applicationId && a.containerId == b.containerId
    requires a.timestampAndStep == b.timestampAndStep && a.taskType == b.taskType
    requires Less(a.attemptNum, b.attemptNum)
    ensures TupleLess(a.AsTuple(), b.AsTuple()) && !TupleLess(b.AsTuple(), a.AsTuple())
  {
    LessIrreflexive(a.attemptNum);
    if Less(b.attemptNum, a.attemptNum) {
      LessTransitive(a.attemptNum, b.attemptNum, a.attemptNum);
    }
    var common := [a.applicationId, a.containerId, a.timestampAndStep, a.taskType];
    assert a.AsTuple() == common + [a.attemptNum, a.taskNum];
    assert b.AsTuple() == common + [b.attemptNum, b.taskNum];
    TupleLessCommonPrefix(common, [a.attemptNum, a.taskNum], [b.attemptNum, b.taskNum]);
    TupleLessCommonPrefix(common, [b.attemptNum, b.taskNum], [a.attemptNum, a.taskNum]);
  }

  // ---------------------------------------------------------------------
  // Sorting by recency

  /** The key `_sort_by_recency` sorts by: `_time_sort_key` as the Python
      tuple it returns. */
  function RecencyKey(d: IdMap): seq<string>
  {
    TimeSortKey(d).AsTuple()
  }

  /** `_sort_by_recency` as its docstring describes it, that is
      `sorted(ds, key=_time_sort_key, reverse=True)`: most recent first,
      records with equal keys kept in their input order. */
  function SortByRecency(ds: seq<IdMap>): (r: seq<IdMap>)
    ensures multiset(r) == multiset(ds)
    ensures SortedDesc(r, RecencyKey)
    ensures forall k :: WithKey(r, RecencyKey, k) == WithKey(ds, RecencyKey, k)
  {
    SortDesc(ds, RecencyKey)
  }

  /** Of two records of the same task type in the same step and the same
      application and container, the one with the later attempt number
      comes first in the sorted output, whatever their task numbers. */
  lemma LaterAttemptFirst(ds: seq<IdMap>, i: nat, j: nat)
    requires i < |SortByRecency(ds)| && j < |SortByRecency(ds)|
    requires var a, b := TimeSortKey(SortByRecency(ds)[i]), TimeSortKey(SortByRecency(ds)[j]);
      && a.applicationId == b.applicationId && a.containerId == b.containerId
      && a.timestampAndStep == b.timestampAndStep && a.taskType == b.taskType
      && Less(b.attemptNum, a.attemptNum)
    ensures i < j
  {
    var r := SortByRecency(ds);
    AttemptNumDominatesTaskNum(TimeSortKey(r[j]), TimeSortKey(r[i]));
    LargerKeyFirst(ds, RecencyKey, i, j);
  }

  /** A call that returns a list, or raises TypeError on an unexpected
      keyword argument. */
  datatype SortOutcome = Sorted(records: seq<IdMap>) | TypeError(keyword: string)

  /** What line 23 of ids.py does: it calls `_sort_by_recency` itself with
      keyword arguments `key=` and `reverse=` that the function does not
      accept, so every call raises TypeError before sorting anything. */
  function SortByRecencyAsWritten(ds: seq<IdMap>): (r: SortOutcome)
  {
    TypeError("key")
  }

  /** The discrepancy: the code as written never returns a sorted list,
      while the intended sort returns one for every input. */
  lemma AsWrittenNeverSorts(ds: seq<IdMap>)
    ensures SortByRecencyAsWritten(ds).TypeError?
    ensures SortedDesc(SortByRecency(ds), RecencyKey) && multiset(SortByRecency(ds)) == multiset(ds)
  {
  }

  // ---------------------------------------------------------------------
  // Implied ids

  /** `_attempt_id_to_task_id`: `'task_'` followed by fields 1 to 4 of the
      attempt id. */
  function AttemptIdToTaskId(attemptId: string): (taskId: string)
    ensures |taskId| >= 5 && taskId[..5] == "task_"
    ensures var f := Split(attemptId, '_');
      Split(taskId, '_') == ["task"] + (if |f| <= 1 then [""] else Slice(f, 1, 5))
  {
    var f := Split(attemptId, '_');
    var taskId := "task_" + Join('_', Slice(f, 1, 5));
    assert taskId == "task" + ['_'] + Join('_', Slice(f, 1, 5));
    SplitTagged("task", '_', Slice(f, 1, 5));
    taskId
  }

  /** `_task_id_to_job_id`: `'job_'` followed by fields 1 and 2 of the task id. */
  function TaskIdToJobId(taskId: string): (jobId: string)
    ensures |jobId| >= 4 && jobId[..4] == "job_"
    ensures var f := Split(taskId, '_');
      Split(jobId, '_') == ["job"] + (if |f| <= 1 then [""] else Slice(f, 1, 3))
  {
    var f := Split(taskId, '_');
    var jobId := "job_" + Join('_', Slice(f, 1, 3));
    assert jobId == "job" + ['_'] + Join('_', Slice(f, 1, 3));
    SplitTagged("job", '_', Slice(f, 1, 3));
    jobId
  }

  /** Deriving the task id and then the job id gives `'job_'` followed by
      fields 1 and 2 of the attempt id itself. */
  lemma TaskThenJobId(attemptId: string)
    ensures TaskIdToJobId(AttemptIdToTaskId(attemptId))
      == "job_" + Join('_', Slice(Split(attemptId, '_'), 1, 3))
  {
    var f := Split(attemptId, '_');
    var taskId := AttemptIdToTaskId(attemptId);
    var g := Split(taskId, '_');
    assert TaskIdToJobId(taskId) == "job_" + Join('_', Slice(g, 1, 3));
    if |f| <= 1 {
      assert Slice(g, 1, 3) == [""];
      assert Slice(f, 1, 3) == [];
    } else {
      SliceAfterTag("task", f);
    }
  }

  /** Fields 1 and 2 survive being re-tagged with fields 1 to 4. */
  lemma SliceAfterTag(tag: string, f: seq<string>)
    requires |f| >= 2
    ensures Slice([tag] + Slice(f, 1, 5), 1, 3) == Slice(f, 1, 3)
  {
    var g := [tag] + Slice(f, 1, 5);
    var hi := if |f| < 3 then |f| else 3;
    assert Slice(g, 1, 3) == g[1..hi];
    assert Slice(f, 1, 3) == f[1..hi];
  }

  /** An attempt id `attempt_<timestamp>_<step>_<type>_<task>_<attempt>`
      (the docstring example has this shape) gives the task id
      `task_<timestamp>_<step>_<type>_<task>`. */
  lemma AttemptIdToTaskIdOfFields(timestamp: string, step: string, taskType: string, taskNum: string, attemptNum: string)
    requires '_' !in timestamp && '_' !in step && '_' !in taskType && '_' !in taskNum && '_' !in attemptNum
    ensures AttemptIdToTaskId(Join('_', ["attempt", timestamp, step, taskType, taskNum, attemptNum]))
      == Join('_', ["task", timestamp, step, taskType, taskNum])
  {
    var fields := ["attempt", timestamp, step, taskType, taskNum, attemptNum];
    SplitJoin('_', fields);
    assert Slice(fields, 1, 5) == fields[1..5];
    var task := ["task", timestamp, step, taskType, taskNum];
    assert task[1..] == fields[1..5];
    JoinUnfold('_', task);
    assert "task_" == "task" + ['_'];
  }

  /** A shorter attempt id gives a shorter task id: the code takes whatever
      fields 1 to 4 exist, so the result need not have four fields. */
  lemma ShortAttemptIdGivesShortTaskId(tag: string, timestamp: string)
    requires '_' !in tag && '_' !in timestamp
    ensures AttemptIdToTaskId(tag) == "task_"
    ensures AttemptIdToTaskId(tag + "_" + timestamp) == "task_" + timestamp
  {
    SplitNoSep(tag, '_');
    SplitNoSep(timestamp, '_');
    SplitCons(tag, '_', timestamp);
    var f := Split(tag + "_" + timestamp, '_');
    assert Slice(f, 1, 5) == [timestamp];
  }

  /** A task id `task_<timestamp>_<step>_<type>_<task>` (the docstring
      example has this shape) gives the job id `job_<timestamp>_<step>`. */
  lemma TaskIdToJobIdOfFields(timestamp: string, step: string, taskType: string, taskNum: string)
    requires '_' !in timestamp && '_' !in step && '_' !in taskType && '_' !in taskNum
    ensures TaskIdToJobId(Join('_', ["task", timestamp, step, taskType, taskNum]))
      == Join('_', ["job", timestamp, step])
  {
    var fields := ["task", timestamp, step, taskType, taskNum];
    SplitJoin('_', fields);
    assert Slice(fields, 1, 3) == fields[1..3];
    var job := ["job", timestamp, step];
    assert job[1..] == fields[1..3];
    JoinUnfold('_', job);
    assert "job_" == "job" + ['_'];
  }

  /** What `_add_implied_ids` leaves in `d`: a task id derived from the
      attempt id when the task id is missing or empty, then a job id derived
      from the (possibly just derived) task id when the job id is missing or
      empty. */
  function ImpliedIds(d: IdMap): (r: IdMap)
    ensures d.Keys <= r.Keys <= d.Keys + {TASK_ID, JOB_ID}
    ensures forall k :: k in d && (Has(d, k) || (k != TASK_ID && k != JOB_ID)) ==> r[k] == d[k]
  {
    var d1 := if Has(d, ATTEMPT_ID) && !Has(d, TASK_ID)
      then d[TASK_ID := AttemptIdToTaskId(d[ATTEMPT_ID])] else d;
    if Has(d1, TASK_ID) && !Has(d1, JOB_ID)
      then d1[JOB_ID := TaskIdToJobId(d1[TASK_ID])] else d1
  }

  /** Which task id and job id the record ends up with. */
  lemma ImpliedIdsFills(d: IdMap)
    ensures var r := ImpliedIds(d);
      && (Has(d, TASK_ID) ==> r[TASK_ID] == d[TASK_ID])
      && (Has(d, ATTEMPT_ID) && !Has(d, TASK_ID) ==> r[TASK_ID] == AttemptIdToTaskId(d[ATTEMPT_ID]))
      && (!Has(d, ATTEMPT_ID) && !Has(d, TASK_ID) ==> (TASK_ID in r <==> TASK_ID in d))
      && (!Has(d, ATTEMPT_ID) && !Has(d, TASK_ID) && TASK_ID in d ==> r[TASK_ID] == d[TASK_ID])
      && (Has(d, JOB_ID) ==> r[JOB_ID] == d[JOB_ID])
      && (Has(r, TASK_ID) && !Has(d, JOB_ID) ==> r[JOB_ID] == TaskIdToJobId(r[TASK_ID]))
      && (!Has(r, TASK_ID) ==> (JOB_ID in r <==> JOB_ID in d))
      && (!Has(r, TASK_ID) && JOB_ID in d ==> r[JOB_ID] == d[JOB_ID])
      && (Has(d, ATTEMPT_ID) ==> Has(r, TASK_ID))
      && (Has(r, TASK_ID) ==> Has(r, JOB_ID))
  {
  }

  /** Only the task id and job id can change; the attempt, application and
      container ids and every other key are left as they were. */
  lemma ImpliedIdsTouchesOnlyTaskAndJob(d: IdMap)
    ensures ImpliedIds(d).Keys == d.Keys + (ImpliedIds(d).Keys * {TASK_ID, JOB_ID})
    ensures forall k :: k in d && k != TASK_ID && k != JOB_ID ==> ImpliedIds(d)[k] == d[k]
  {
  }

  /** Applying `_add_implied_ids` a second time changes nothing. */
  lemma ImpliedIdsIdempotent(d: IdMap)
    ensures ImpliedIds(ImpliedIds(d)) == ImpliedIds(d)
  {
    ImpliedIdsFills(d);
  }

  /** A record holding only an attempt id (as in the docstring example)
      gains the task id and the job id it implies, and nothing else. */
  lemma ImpliedIdsOfAttemptId(timestamp: string, step: string, taskType: string, taskNum: string, attemptNum: string)
    requires '_' !in timestamp && '_' !in step && '_' !in taskType && '_' !in taskNum && '_' !in attemptNum
    ensures var attemptId := Join('_', ["attempt", timestamp, step, taskType, taskNum, attemptNum]);
      ImpliedIds(map[ATTEMPT_ID := attemptId]) == map[
        ATTEMPT_ID := attemptId,
        TASK_ID := Join('_', ["task", timestamp, step, taskType, taskNum]),
        JOB_ID := Join('_', ["job", timestamp, step])]
  {
    var attemptId := Join('_', ["attempt", timestamp, step, taskType, taskNum, attemptNum]);
    var taskId := Join('_', ["task", timestamp, step, taskType, taskNum]);
    var jobId := Join('_', ["job", timestamp, step]);
    AttemptIdToTaskIdOfFields(timestamp, step, taskType, taskNum, attemptNum);
    TaskIdToJobIdOfFields(timestamp, step, taskType, taskNum);
    assert |attemptId| > 0 && |taskId| > 0;
    var d := map[ATTEMPT_ID := attemptId];
    assert ImpliedIds(d) == d[TASK_ID := taskId][JOB_ID := jobId];
  }

  /** The dictionary object `_add_implied_ids` receives and changes in place. */
  class Dict {
    var items: IdMap

    constructor (items: IdMap)
      ensures this.items == items
    {
      this.items := items;
    }
  }

  /** `_add_implied_ids(d)`: fills in the ids `d` implies, in place. */
  method AddImpliedIds(d: Dict)
    modifies d
    ensures d.items == ImpliedIds(old(d.items))
  {
    if Has(d.items, ATTEMPT_ID) && !Has(d.items, TASK_ID) {
      d.items := d.items[TASK_ID := AttemptIdToTaskId(d.items[ATTEMPT_ID])];
    }
    if Has(d.items, TASK_ID) && !Has(d.items, JOB_ID) {
      d.items := d.items[JOB_ID := TaskIdToJobId(d.items[TASK_ID])];
    }
  }
}
