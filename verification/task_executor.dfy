/** The task registry behind the desktop front end: configurations by table row,
    the accounts with a job in flight, and the status reports sent back to the
    table. Jobs run on threads in the program; here starting a job and its
    completion are two separate transitions, and a thread is reduced to whether it
    is still alive. */
module TaskExecutor {
  import opened Wrappers
  import opened Sets
  import opened TaskTypes

  /** `task_configs` by row, and `running_tasks` by account with each thread's
      `is_alive()`. */
  datatype Registry = Registry(configs: map<int, TaskConfig>, running: map<string, bool>)

  /** A status callback invocation. */
  datatype Report = Report(row: int, status: Status)

  /** A started job: the row and account captured when it was started, and the
      configuration it runs with. */
  datatype Job = Job(row: int, account: string, config: TaskConfig)

  function Empty(): Registry {
    Registry(map[], map[])
  }

  /** `is_task_running`: a job is recorded for the account and its thread is alive. */
  predicate IsTaskRunning(reg: Registry, account: string) {
    account in reg.running && reg.running[account]
  }

  /** `get_task_config`. */
  function GetTaskConfig(reg: Registry, row: int): (r: Option<TaskConfig>)
    ensures r.Some? <==> row in reg.configs
    ensures r.Some? ==> r.value == reg.configs[row]
  {
    if row in reg.configs then Some(reg.configs[row]) else None
  }

  /** `add_task`: the row holds the new configuration, replacing any earlier one;
      every other row and the running jobs are untouched. */
  function AddTask(reg: Registry, row: int, c: TaskConfig): (r: Registry)
    ensures GetTaskConfig(r, row) == Some(c)
    ensures forall k :: k != row ==> GetTaskConfig(r, k) == GetTaskConfig(reg, k)
    ensures r.running == reg.running
  {
    reg.(configs := reg.configs[row := c])
  }

  // ---------------------------------------------------------------------------
  // removal

  /** Where a surviving row moves when `row` is removed. */
  function Shift(k: int, row: int): int {
    if k > row then k - 1 else k
  }

  /** The row that moves to index `k` when `row` is removed. */
  function Source(k: int, row: int): (j: int)
    ensures j != row || k < row
    ensures k < row ==> Shift(j, row) == k
    ensures k >= row ==> j > row && Shift(j, row) == k
  {
    if k < row then k else k + 1
  }

  /** The indices of the rows in `keys` once `row` is gone. */
  function Shifted(keys: set<int>, row: int): set<int> {
    set k | k in keys :: Shift(k, row)
  }

  /** The shifted indices are those below `row` that were present, and those from
      `row` on whose successor was present. */
  lemma ShiftedMembers(keys: set<int>, row: int)
    requires row !in keys
    ensures forall k :: k in Shifted(keys, row) <==> Source(k, row) in keys
  {
    forall k ensures k in Shifted(keys, row) <==> Source(k, row) in keys {
      ShiftedMember(keys, row, k);
    }
  }

  lemma ShiftedMember(keys: set<int>, row: int, k: int)
    requires row !in keys
    ensures k in Shifted(keys, row) <==> Source(k, row) in keys
  {
    if Source(k, row) in keys {
      assert Shift(Source(k, row), row) == k;
    }
  }

  /** No two rows land on the same index, so there are as many as before. */
  lemma {:induction false} ShiftedCard(keys: set<int>, row: int)
    requires row !in keys
    ensures |Shifted(keys, row)| == |keys|
    decreases |keys|
  {
    if keys != {} {
      var x := Choose(keys);
      var rest := keys - {x};
      ShiftedCard(rest, row);
      assert Shifted(keys, row) == Shifted(rest, row) + {Shift(x, row)};
      assert Shift(x, row) !in Shifted(rest, row);
    }
  }

  /** The rows after `row` move up by one; the others keep their index. */
  function Reindex(m: map<int, TaskConfig>, row: int): (r: map<int, TaskConfig>)
    requires row !in m
    ensures forall k :: k in r <==> Source(k, row) in m
    ensures forall k :: k in r ==> r[k] == m[Source(k, row)]
    ensures |r| == |m|
  {
    ShiftedMembers(m.Keys, row);
    ShiftedCard(m.Keys, row);
    var r := map k | k in Shifted(m.Keys, row) :: m[Source(k, row)];
    assert r.Keys == Shifted(m.Keys, row);
    r
  }

  /** `remove_task`. It fails, changing nothing, when the row is absent or its
      account has a live job. Otherwise the row is dropped, a finished job record
      of its account is dropped, and every later row moves up by one with its
      configuration intact; the table shrinks by exactly one. */
  function RemoveTask(reg: Registry, row: int): (result: (bool, Registry))
    ensures !result.0 <==> row !in reg.configs || IsTaskRunning(reg, reg.configs[row].account)
    ensures !result.0 ==> result.1 == reg
    ensures result.0 ==> var r := result.1;
              (forall k :: k in r.configs <==> Source(k, row) != row && Source(k, row) in reg.configs) &&
              (forall k :: k in r.configs ==> r.configs[k] == reg.configs[Source(k, row)]) &&
              |r.configs| == |reg.configs| - 1 &&
              r.running == reg.running - {reg.configs[row].account}
  {
    if row !in reg.configs then (false, reg)
    else
      var c := reg.configs[row];
      if IsTaskRunning(reg, c.account) then (false, reg)
      else
        var rest := reg.configs - {row};
        var configs := Reindex(rest, row);
        (true, Registry(configs, reg.running - {c.account}))
  }

  /** Removal loses no configuration and merges none: every other row's
      configuration is still present, at its new index. */
  lemma RemoveKeepsOthers(reg: Registry, row: int, k: int)
    requires RemoveTask(reg, row).0 && k in reg.configs && k != row
    ensures Shift(k, row) in RemoveTask(reg, row).1.configs
    ensures RemoveTask(reg, row).1.configs[Shift(k, row)] == reg.configs[k]
  {
  }

  // ---------------------------------------------------------------------------
  // running a job

  /** What `execute_task` returns: the new registry, the job it started, and the
      status reports it sent. */
  datatype Started = Started(reg: Registry, job: Option<Job>, reports: seq<Report>)

  /** `execute_task`. It fails silently when the row is absent or its account has
      a live job. Otherwise it reports the row as running, records a live job for
      the account and hands back the job to be completed later. */
  function ExecuteTask(reg: Registry, row: int): (s: Started)
    ensures s.job.None? <==> row !in reg.configs || IsTaskRunning(reg, reg.configs[row].account)
    ensures s.job.None? ==> s.reg == reg && s.reports == []
    ensures s.job.Some? ==>
              s.job.value == Job(row, reg.configs[row].account, reg.configs[row]) &&
              s.reports == [Report(row, Running)] &&
              s.reg.configs == reg.configs &&
              IsTaskRunning(s.reg, s.job.value.account) &&
              forall a :: a != s.job.value.account ==>
                (a in s.reg.running <==> a in reg.running) && (a in reg.running ==> s.reg.running[a] == reg.running[a])
  {
    if row !in reg.configs then Started(reg, None, [])
    else
      var c := reg.configs[row];
      if IsTaskRunning(reg, c.account) then Started(reg, None, [])
      else Started(reg.(running := reg.running[c.account := true]), Some(Job(row, c.account, c)), [Report(row, Running)])
  }

  /** For a present row, `is_task_running` on the row's account is exactly the
      guard that refuses both starting the row and removing it. */
  lemma IsTaskRunningGuards(reg: Registry, row: int)
    requires row in reg.configs
    ensures ExecuteTask(reg, row).job.None? <==> IsTaskRunning(reg, reg.configs[row].account)
    ensures RemoveTask(reg, row).0 <==> !IsTaskRunning(reg, reg.configs[row].account)
  {
  }

  /** How the job's `run()` ended. */
  datatype JobOutcome = Returned(success: bool) | Raised(error: string)

  datatype Level = Info | Debug | Success | Warning | Error

  /** A message sent to a print callback. */
  datatype Message = Message(text: string, level: Level)

  const ErrorPrefix: string := "執行出錯: "

  /** What a finished job leaves behind: the registry, its status report, and the
      messages sent to its configuration's callback. */
  datatype Finished = Finished(reg: Registry, report: Report, messages: seq<Message>)

  /** The end of `run_task`. The account's job record is dropped, the row captured
      at start is reported completed exactly when the run returned true and failed
      otherwise, and an exception is passed on to the callback, when there is one,
      as two error messages: the error text and the traceback. */
  function Complete(reg: Registry, job: Job, outcome: JobOutcome, traceback: string): (f: Finished)
    ensures f.reg.configs == reg.configs
    ensures !IsTaskRunning(f.reg, job.account) && job.account !in f.reg.running
    ensures forall a :: a != job.account ==>
              (a in f.reg.running <==> a in reg.running) && (a in reg.running ==> f.reg.running[a] == reg.running[a])
    ensures f.report.row == job.row
    ensures f.report.status == Completed <==> outcome == Returned(true)
    ensures f.report.status != Completed ==> f.report.status == Failed
    ensures |f.messages| == (if outcome.Raised? && job.config.printCallback.Some? then 2 else 0)
    ensures forall m :: m in f.messages ==> m.level == Error
    ensures |f.messages| == 2 ==> f.messages[0].text == ErrorPrefix + outcome.error && f.messages[1].text == traceback
  {
    var status := if outcome == Returned(true) then Completed else Failed;
    var messages :=
      if outcome.Raised? && job.config.printCallback.Some? then
        [Message(ErrorPrefix + outcome.error, Error), Message(traceback, Error)]
      else [];
    Finished(reg.(running := reg.running - {job.account}), Report(job.row, status), messages)
  }

  /** `update_task_config`: fails, changing nothing, when the row is absent;
      otherwise updates that row's configuration alone. */
  function UpdateTaskConfig(reg: Registry, row: int, kw: map<string, Value>): (result: (bool, Registry))
    requires WellTyped(kw)
    ensures result.0 <==> row in reg.configs
    ensures !result.0 ==> result.1 == reg
    ensures result.0 ==> GetTaskConfig(result.1, row) == Some(Update(reg.configs[row], kw))
    ensures forall k :: k != row ==> GetTaskConfig(result.1, k) == GetTaskConfig(reg, k)
    ensures result.1.running == reg.running
  {
    if row in reg.configs then (true, reg.(configs := reg.configs[row := Update(reg.configs[row], kw)]))
    else (false, reg)
  }

  /** `cleanup`: no configuration and no job record is left. */
  function Cleanup(reg: Registry): (r: Registry)
    ensures forall row :: GetTaskConfig(r, row).None?
    ensures forall a :: !IsTaskRunning(r, a) && a !in r.running
  {
    Empty()
  }

  // ---------------------------------------------------------------------------
  // runs of several operations

  /** A configuration added and read back is the one added. */
  lemma AddThenGet(reg: Registry, row: int, c: TaskConfig)
    ensures GetTaskConfig(AddTask(reg, row, c), row) == Some(c)
  {
  }

  /** While a job runs, its row cannot be removed and its account cannot be
      started again from any row. */
  lemma LiveJobBlocks(reg: Registry, row: int, other: int)
    requires ExecuteTask(reg, row).job.Some?
    requires other in reg.configs && reg.configs[other].account == reg.configs[row].account
    ensures !RemoveTask(ExecuteTask(reg, row).reg, row).0
    ensures ExecuteTask(ExecuteTask(reg, row).reg, other).job.None?
  {
  }

  /** After the job completes, its row can be started again. */
  lemma CompleteReleases(reg: Registry, row: int, outcome: JobOutcome, traceback: string)
    requires ExecuteTask(reg, row).job.Some?
    ensures var s := ExecuteTask(reg, row);
            ExecuteTask(Complete(s.reg, s.job.value, outcome, traceback).reg, row).job.Some?
  {
  }

  /** The final report goes to the row captured at start. When an earlier row is
      removed while the job runs, that index now holds the configuration that
      used to sit one row further down, so the report lands on another task's row. */
  lemma ReportUsesCapturedRow(reg: Registry, row: int, earlier: int, outcome: JobOutcome, traceback: string)
    requires ExecuteTask(reg, row).job.Some?
    requires earlier < row && RemoveTask(ExecuteTask(reg, row).reg, earlier).0
    ensures var s := ExecuteTask(reg, row);
            var after := RemoveTask(s.reg, earlier).1;
            var f := Complete(after, s.job.value, outcome, traceback);
            f.report.row == row && GetTaskConfig(f.reg, row) == GetTaskConfig(reg, row + 1)
  {
    var s := ExecuteTask(reg, row);
    var after := RemoveTask(s.reg, earlier).1;
    assert Source(row, earlier) == row + 1;
    assert row in after.configs <==> row + 1 in reg.configs;
  }

  /** The liveness guard of removal reads the row's current account: once the
      account of a running row is changed, the row can be removed while its job
      still runs. */
  lemma RenamedRowEscapesGuard(reg: Registry, row: int, name: string)
    requires ExecuteTask(reg, row).job.Some?
    requires !IsTaskRunning(ExecuteTask(reg, row).reg, name)
    ensures var s := ExecuteTask(reg, row);
            var renamed := UpdateTaskConfig(s.reg, row, map["account" := Text(name)]).1;
            RemoveTask(renamed, row).0 && IsTaskRunning(RemoveTask(renamed, row).1, s.job.value.account)
  {
    var s := ExecuteTask(reg, row);
    var renamed := UpdateTaskConfig(s.reg, row, map["account" := Text(name)]).1;
    assert renamed.configs[row].account == name;
  }
}
