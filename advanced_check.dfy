/** `run_module` of the iDRAC advanced check module: run the four readiness
    checks in a fixed order, each exactly once whatever the others gave, record
    every result under the check's function name, and fold the failures into
    one report. The connection to the controller is an input: either the
    answers its four queries give, or the text of the exception raised while
    it was being constructed. */
module IdracAdvancedCheck {
  import opened PyText
  import opened ReadinessChecks

  /** The four checks of the `checks` list. */
  datatype Check = FirmwareVersion | HardwareCompatibility | SystemHealth | RaidConfiguration
  {
    /** `check.__name__`: the key of the check's entry in `check_results`. */
    function Name(): string
    {
      match this
      case FirmwareVersion => "check_firmware_version"
      case HardwareCompatibility => "check_hardware_compatibility"
      case SystemHealth => "check_system_health"
      case RaidConfiguration => "check_raid_configuration"
    }
  }

  /** The `checks` list, in the order the checks are run. */
  const Schedule: seq<Check> := [FirmwareVersion, HardwareCompatibility, SystemHealth, RaidConfiguration]

  /** The module's three threshold options. */
  datatype Thresholds = Thresholds(minFirmwareVersion: string, minCpuCount: int, minMemoryGb: int)

  /** The defaults of `min_firmware_version`, `min_cpu_count` and `min_memory_gb`. */
  const DefaultThresholds := Thresholds(DefaultMinFirmwareVersion, DefaultMinCpuCount, DefaultMinMemoryGb)

  /** What the connection's four queries answer during one run. */
  datatype Idrac = Idrac(
    firmwareVersion: Query<string>,
    systemInfo: Query<SystemInfo>,
    systemHealth: Query<Option<string>>,
    raidControllers: Query<seq<Controller>>)

  /** `check(idrac, *args)`, with the arguments the `checks` list pairs with it. */
  function RunCheck(check: Check, idrac: Idrac, t: Thresholds): CheckResult
  {
    match check
    case FirmwareVersion => CheckFirmwareVersion(idrac.firmwareVersion, t.minFirmwareVersion)
    case HardwareCompatibility => CheckHardwareCompatibility(idrac.systemInfo, t.minCpuCount, t.minMemoryGb)
    case SystemHealth => CheckSystemHealth(idrac.systemHealth)
    case RaidConfiguration => CheckRaidConfiguration(idrac.raidControllers)
  }

  /** The result of every scheduled check, in schedule order. */
  function Results(idrac: Idrac, t: Thresholds): seq<CheckResult>
  {
    seq(|Schedule|, i requires 0 <= i < |Schedule| => RunCheck(Schedule[i], idrac, t))
  }

  function Names(checks: seq<Check>): seq<string>
  {
    seq(|checks|, i requires 0 <= i < |checks| => checks[i].Name())
  }

  /** Every check is recorded under its own key: no entry overwrites another. */
  lemma {:induction false} ScheduleNamesDistinct(j: nat, k: nat)
    requires j < k < |Schedule|
    ensures Schedule[j].Name() != Schedule[k].Name()
  {
    assert Schedule[0].Name()[6] == 'f';
    assert Schedule[1].Name()[6] == 'h';
    assert Schedule[2].Name()[6] == 's';
    assert Schedule[3].Name()[6] == 'r';
  }

  // ---------------------------------------------------------------------------
  // failed_checks

  /** The messages of the failed results, in their order: what `failed_checks`
      holds once the given results have been appended. */
  function FailureMessages(results: seq<CheckResult>): seq<string>
  {
    if |results| == 0 then []
    else
      var last := results[|results| - 1];
      FailureMessages(results[..|results| - 1]) + (if last.success then [] else [last.message])
  }

  /** Collecting failures keeps their order: the failures of a concatenation
      are those of its first part followed by those of its second. */
  lemma {:induction false} FailureMessagesConcat(a: seq<CheckResult>, b: seq<CheckResult>)
    ensures FailureMessages(a + b) == FailureMessages(a) + FailureMessages(b)
  {
    if |b| > 0 {
      var init := b[..|b| - 1];
      FailureMessagesConcat(a, init);
      assert (a + b)[..|a + b| - 1] == a + init;
    } else {
      assert a + b == a;
    }
  }

  /** No failure messages exactly when every result succeeded. */
  lemma {:induction false} FailureMessagesEmpty(results: seq<CheckResult>)
    ensures FailureMessages(results) == [] <==> forall i :: 0 <= i < |results| ==> results[i].success
  {
    if |results| > 0 {
      var init := results[..|results| - 1];
      FailureMessagesEmpty(init);
      assert forall i :: 0 <= i < |init| ==> init[i] == results[i];
    }
  }

  /** Every failed result contributes its message, and nothing else is listed. */
  lemma {:induction false} FailureMessagesListFailures(results: seq<CheckResult>)
    ensures forall i :: 0 <= i < |results| && !results[i].success ==>
      results[i].message in FailureMessages(results)
    ensures forall m :: m in FailureMessages(results) ==>
      exists i :: 0 <= i < |results| && !results[i].success && results[i].message == m
  {
    if |results| > 0 {
      var init := results[..|results| - 1];
      FailureMessagesListFailures(init);
      assert forall i :: 0 <= i < |init| ==> init[i] == results[i];
    }
  }

  // ---------------------------------------------------------------------------
  // The report

  const CompletedMessage := "Advanced iDRAC checks completed"
  const AllPassedMessage := "All advanced iDRAC checks passed successfully"
  const FailedPrefix := "Advanced iDRAC checks failed: "

  /** The dictionary handed to `exit_json`. `checkResults` is `check_results`;
      `resultOrder` is that dictionary's key order, the order of insertion. */
  datatype Report = Report(
    changed: bool,
    msg: string,
    failed: bool,
    checkResults: map<string, CheckResult>,
    resultOrder: seq<string>)

  /** The two ways a run of the module ends: `exit_json` with a report, or
      `fail_json` with a single message and no check results. */
  datatype ModuleOutcome = Exited(report: Report) | Failed(msg: string)

  /** What a report says of the results of the four checks, in schedule
      order: all four are recorded, under their names and in that order;
      nothing was changed; `failed` says whether any check failed; and the
      message either says everything passed or lists every failure message in
      schedule order. */
  ghost predicate Reports(report: Report, results: seq<CheckResult>)
  {
    && |results| == |Schedule|
    && !report.changed
    && report.resultOrder == Names(Schedule)
    && Tabulates(report.checkResults, report.resultOrder, results, |Schedule|)
    && (report.failed <==> exists i :: 0 <= i < |results| && !results[i].success)
    && report.msg == if report.failed
                     then FailedPrefix + Join(FailureMessages(results), ", ")
                     else AllPassedMessage
  }

  /** The report of a run against `idrac` with thresholds `t`. */
  ghost predicate Summarises(report: Report, idrac: Idrac, t: Thresholds)
  {
    Reports(report, Results(idrac, t))
  }

  /** `checkResults` maps the `n` names of `order` to the first `n` results. */
  ghost predicate Tabulates(checkResults: map<string, CheckResult>, order: seq<string>,
                            results: seq<CheckResult>, n: nat)
  {
    && |order| == n <= |results|
    && checkResults.Keys == (set k | k in order)
    && forall j :: 0 <= j < n ==> checkResults[order[j]] == results[j]
  }

  /** Recording one more result under a fresh name keeps the table exact. */
  lemma TabulateNext(checkResults: map<string, CheckResult>, order: seq<string>,
                     results: seq<CheckResult>, n: nat, name: string)
    requires Tabulates(checkResults, order, results, n)
    requires n < |results| && name !in order
    ensures Tabulates(checkResults[name := results[n]], order + [name], results, n + 1)
  {
    var order' := order + [name];
    assert (set k | k in order') == (set k | k in order) + {name};
    assert forall j :: 0 <= j < n ==> order'[j] == order[j];
  }

  /** The name of the next check is not among those already recorded. */
  lemma NameIsFresh(n: nat)
    requires n < |Schedule|
    ensures Schedule[n].Name() !in Names(Schedule[..n])
  {
    forall j | 0 <= j < n ensures Names(Schedule[..n])[j] != Schedule[n].Name() {
      ScheduleNamesDistinct(j, n);
    }
  }

  /** What the loop has built once the first `n` checks have run: the failure
      messages of their results, their names in order, and each result under
      its name. */
  ghost predicate Recorded(results: seq<CheckResult>, n: nat, failedChecks: seq<string>,
                           checkResults: map<string, CheckResult>, resultOrder: seq<string>)
  {
    && n <= |results| && n <= |Schedule|
    && failedChecks == FailureMessages(results[..n])
    && resultOrder == Names(Schedule[..n])
    && Tabulates(checkResults, resultOrder, results, n)
  }

  /** One round of the loop: record the next result under the next name, and
      append its message when it failed. */
  lemma RecordNext(results: seq<CheckResult>, n: nat, failedChecks: seq<string>,
                   checkResults: map<string, CheckResult>, resultOrder: seq<string>)
    requires Recorded(results, n, failedChecks, checkResults, resultOrder)
    requires n < |results| && n < |Schedule|
    ensures var result, name := results[n], Schedule[n].Name();
      Recorded(results, n + 1,
               if result.success then failedChecks else failedChecks + [result.message],
               checkResults[name := result], resultOrder + [name])
  {
    var name := Schedule[n].Name();
    NameIsFresh(n);
    TabulateNext(checkResults, resultOrder, results, n, name);
    NamesNext(n);
    FailureMessagesNext(results, n);
  }

  lemma NamesNext(n: nat)
    requires n < |Schedule|
    ensures Names(Schedule[..n + 1]) == Names(Schedule[..n]) + [Schedule[n].Name()]
  {
  }

  lemma FailureMessagesNext(results: seq<CheckResult>, n: nat)
    requires n < |results|
    ensures FailureMessages(results[..n + 1]) ==
      FailureMessages(results[..n]) + if results[n].success then [] else [results[n].message]
  {
    assert results[..n + 1][..n] == results[..n];
  }

  /** The checks loop of `run_module` and the report built from it. */
  method RunChecks(idrac: Idrac, t: Thresholds) returns (report: Report)
    ensures Summarises(report, idrac, t)
  {
    ghost var results := Results(idrac, t);
    var failedChecks: seq<string> := [];
    var checkResults: map<string, CheckResult> := map[];
    var resultOrder: seq<string> := [];
    for i := 0 to |Schedule|
      invariant Recorded(results, i, failedChecks, checkResults, resultOrder)
    {
      var check := Schedule[i];
      var result := RunCheck(check, idrac, t);
      var name := check.Name();
      RecordNext(results, i, failedChecks, checkResults, resultOrder);
      checkResults := checkResults[name := result];
      resultOrder := resultOrder + [name];
      if !result.success {
        failedChecks := failedChecks + [result.message];
      }
    }
    assert results[..|Schedule|] == results;
    assert Schedule[..|Schedule|] == Schedule;
    FailureMessagesEmpty(results);

    var failed := |failedChecks| > 0;
    var msg := CompletedMessage;
    if failed {
      msg := FailedPrefix + Join(failedChecks, ", ");
    } else {
      msg := AllPassedMessage;
    }
    report := Report(false, msg, failed, checkResults, resultOrder);
  }

  /** `run_module` once its arguments are parsed: a connection that could not
      be constructed is the one fatal outcome; otherwise the checks run and
      their report is returned. */
  method RunModule(connection: Query<Idrac>, t: Thresholds) returns (outcome: ModuleOutcome)
    ensures connection.Raised? ==>
      outcome == Failed("An error occurred during iDRAC checks: " + connection.error)
    ensures connection.Answer? ==>
      outcome.Exited? && Summarises(outcome.report, connection.value, t)
  {
    match connection
    case Raised(e) =>
      outcome := Failed("An error occurred during iDRAC checks: " + e);
    case Answer(idrac) =>
      var report := RunChecks(idrac, t);
      outcome := Exited(report);
  }

  // ---------------------------------------------------------------------------
  // Properties of the report

  /** A sequence without repetitions has as many distinct elements as entries. */
  lemma {:induction false} DistinctElementsCount(s: seq<string>)
    requires forall i, j :: 0 <= i < j < |s| ==> s[i] != s[j]
    ensures |set k | k in s| == |s|
  {
    if |s| > 0 {
      var init := s[..|s| - 1];
      DistinctElementsCount(init);
      assert (set k | k in s) == (set k | k in init) + {s[|s| - 1]};
      assert s[|s| - 1] !in init;
    }
  }

  /** The checks run in the order firmware, hardware, health, RAID, each on
      its own query and with its own thresholds. */
  lemma ResultsInScheduleOrder(idrac: Idrac, t: Thresholds)
    ensures Results(idrac, t) == [
      CheckFirmwareVersion(idrac.firmwareVersion, t.minFirmwareVersion),
      CheckHardwareCompatibility(idrac.systemInfo, t.minCpuCount, t.minMemoryGb),
      CheckSystemHealth(idrac.systemHealth),
      CheckRaidConfiguration(idrac.raidControllers)]
  {
  }

  /** A report has exactly four entries, one per check, whatever the outcomes. */
  lemma ReportHasFourEntries(report: Report, results: seq<CheckResult>)
    requires Reports(report, results)
    ensures |report.checkResults| == 4
    ensures |report.resultOrder| == 4
  {
    var order := report.resultOrder;
    forall i, j | 0 <= i < j < |order| ensures order[i] != order[j] {
      ScheduleNamesDistinct(i, j);
    }
    DistinctElementsCount(order);
  }

  /** The failure summary lists the failed checks' messages in schedule order:
      firmware, then hardware, then health, then RAID. */
  lemma FailureSummaryInScheduleOrder(report: Report, results: seq<CheckResult>)
    requires Reports(report, results)
    requires report.failed
    ensures report.msg == FailedPrefix + Join(
      FailureMessages([results[0]]) + FailureMessages([results[1]])
      + FailureMessages([results[2]]) + FailureMessages([results[3]]), ", ")
  {
    assert results == [results[0]] + [results[1]] + [results[2]] + [results[3]];
    FailureMessagesConcat([results[0]] + [results[1]] + [results[2]], [results[3]]);
    FailureMessagesConcat([results[0]] + [results[1]], [results[2]]);
    FailureMessagesConcat([results[0]], [results[1]]);
  }

  /** When exactly one check fails, the summary is that check's message. */
  lemma SingleFailureIsReportedAlone(report: Report, results: seq<CheckResult>, k: nat)
    requires Reports(report, results)
    requires k < |results|
    requires !results[k].success
    requires forall i :: 0 <= i < |results| && i != k ==> results[i].success
    ensures report.failed
    ensures report.msg == FailedPrefix + results[k].message
  {
    FailureSummaryInScheduleOrder(report, results);
    assert FailureMessages([results[k]]) == [results[k].message];
    assert forall i :: 0 <= i < 4 && i != k ==> FailureMessages([results[i]]) == [];
  }
}
