/** The four readiness checks of the iDRAC advanced check module
    (harvester-install/library/idrac_advanced_check.py). Each check asks the
    management controller one question; the answer is an input here, either
    the structured data the query returned or the text of the exception it
    raised. Every check turns such an exception into a failed result. */
module ReadinessChecks {
  import opened PyText

  datatype Option<+T> = None | Some(value: T)

  /** The outcome of one `idrac.get_*` query. */
  datatype Query<+T> = Answer(value: T) | Raised(error: string)

  /** What a check returns: the `(success, message)` pair. */
  datatype CheckResult = CheckResult(success: bool, message: string)

  /** How an f-string renders a value that is a `str` or `None`. */
  function Shown(v: Option<string>): string
  {
    match v
    case Some(s) => s
    case None => "None"
  }

  /** The defaults of the module's `min_firmware_version`, `min_cpu_count` and
      `min_memory_gb` options. */
  const DefaultMinFirmwareVersion := "4.40.00.00"
  const DefaultMinCpuCount := 4
  const DefaultMinMemoryGb := 32

  // ===========================================================================
  // check_firmware_version

  /** Four `\d+` groups. */
  predicate VersionGroups(g: seq<string>)
  {
    |g| == 4 && forall i :: 0 <= i < 4 ==> DigitRun(g[i])
  }

  ghost predicate SpellsVersion(g: seq<string>, s: string)
  {
    VersionGroups(g) && Join(g, ".") == s
  }

  /** The language of `^\d+\.\d+\.\d+\.\d+$`: four digit runs joined by dots. */
  ghost predicate IsVersionString(s: string)
  {
    exists g :: SpellsVersion(g, s)
  }

  /** The pattern test as the model runs it: split on '.', then look at the pieces. */
  predicate MatchesVersionPattern(s: string)
  {
    VersionGroups(Split(s, '.'))
  }

  lemma VersionPatternMatchesExactly(s: string)
    ensures MatchesVersionPattern(s) <==> IsVersionString(s)
  {
    if MatchesVersionPattern(s) {
      JoinSplit(s, '.');
      assert SpellsVersion(Split(s, '.'), s);
    }
    if IsVersionString(s) {
      var g :| SpellsVersion(g, s);
      assert forall i :: 0 <= i < |g| ==> '.' !in g[i];
      SplitJoin(g, '.');
    }
  }

  function CheckFirmwareVersion(firmware: Query<string>, minVersion: string): (r: CheckResult)
    ensures firmware.Raised? ==>
      r == CheckResult(false, "Error checking firmware version: " + firmware.error)
    ensures firmware.Answer? && !IsVersionString(firmware.value) ==>
      r == CheckResult(false, "Invalid firmware version format: " + firmware.value)
    ensures r.success <==>
      firmware.Answer? && IsVersionString(firmware.value) &&
      (firmware.value == minVersion || LexBelow(minVersion, firmware.value))
    ensures firmware.Answer? && IsVersionString(firmware.value) ==>
      r.message == if r.success
        then "Firmware version " + firmware.value + " is compatible"
        else "Firmware version " + firmware.value + " is below the minimum required version " + minVersion
  {
    match firmware
    case Raised(e) => CheckResult(false, "Error checking firmware version: " + e)
    case Answer(version) =>
      VersionPatternMatchesExactly(version);
      AtLeastIsLexicographic(version, minVersion);
      if MatchesVersionPattern(version) then
        if AtLeast(version, minVersion) then
          CheckResult(true, "Firmware version " + version + " is compatible")
        else
          CheckResult(false, "Firmware version " + version + " is below the minimum required version " + minVersion)
      else
        CheckResult(false, "Invalid firmware version format: " + version)
  }

  /** A malformed version fails whatever the minimum: no comparison is made. */
  lemma MalformedVersionIgnoresMinimum(version: string, min1: string, min2: string)
    requires !MatchesVersionPattern(version)
    ensures CheckFirmwareVersion(Answer(version), min1) ==
      CheckResult(false, "Invalid firmware version format: " + version)
  {
    VersionPatternMatchesExactly(version);
  }

  /** The string comparison at work: "4.50.00.00" passes against the default
      minimum "4.40.00.00" ... */
  lemma NewerVersionPasses()
    ensures CheckFirmwareVersion(Answer("4.50.00.00"), DefaultMinFirmwareVersion).success
  {
    var v, m := "4.50.00.00", DefaultMinFirmwareVersion;
    assert IsVersionString(v) by {
      assert Join(["00"], ".") == "00";
      assert Join(["00", "00"], ".") == "00.00";
      assert Join(["50", "00", "00"], ".") == "50.00.00";
      assert SpellsVersion(["4", "50", "00", "00"], v);
    }
    assert LexBelow(m, v) by {
      assert m[1..][1..][0] < v[1..][1..][0];
      assert Below(m[1..][1..], v[1..][1..]);
      BelowIsLexicographic(m, v);
    }
  }

  /** ... but "10.0.0.0" fails against it although 10 > 4 ... */
  lemma TwoDigitMajorVersionFails()
    ensures !CheckFirmwareVersion(Answer("10.0.0.0"), DefaultMinFirmwareVersion).success
  {
    var v, m := "10.0.0.0", DefaultMinFirmwareVersion;
    assert IsVersionString(v) by {
      assert Join(["0"], ".") == "0";
      assert Join(["0", "0"], ".") == "0.0";
      assert Join(["0", "0", "0"], ".") == "0.0.0";
      assert SpellsVersion(["10", "0", "0", "0"], v);
    }
    assert !LexBelow(m, v) by {
      assert Below(v, m);
      BelowIsStrict(v, m);
      BelowIsLexicographic(m, v);
    }
  }

  /** ... and "4.5" is rejected by the pattern. */
  lemma ShortVersionIsInvalid()
    ensures CheckFirmwareVersion(Answer("4.5"), DefaultMinFirmwareVersion) ==
      CheckResult(false, "Invalid firmware version format: 4.5")
  {
    assert Join(["4", "5"], ".") == "4.5";
    SplitJoin(["4", "5"], '.');
    VersionPatternMatchesExactly("4.5");
  }

  /** Python's comparison of tuples of integers: the order the version numbers
      have as numbers, group by group. */
  predicate NumericBelow(u: seq<nat>, v: seq<nat>)
  {
    if |u| == 0 then |v| > 0
    else if |v| == 0 then false
    else if u[0] != v[0] then u[0] < v[0]
    else NumericBelow(u[1..], v[1..])
  }

  function GroupValues(g: seq<string>): (vs: seq<nat>)
    requires forall i :: 0 <= i < |g| ==> AllDigits(g[i])
    ensures |vs| == |g|
    ensures forall i :: 0 <= i < |g| ==> vs[i] == DecimalValue(g[i])
  {
    if |g| == 0 then [] else [DecimalValue(g[0])] + GroupValues(g[1..])
  }

  /** Digit groups laid out with the same widths on both sides compare as
      joined strings exactly as their numbers compare group by group. */
  lemma {:induction false} SameLayoutJoinsCompareNumerically(g: seq<string>, h: seq<string>)
    requires |g| == |h| > 0
    requires forall i :: 0 <= i < |g| ==> AllDigits(g[i]) && AllDigits(h[i]) && |g[i]| == |h[i]|
    ensures Below(Join(g, "."), Join(h, ".")) <==> NumericBelow(GroupValues(g), GroupValues(h))
  {
    SameWidthDigitsCompareNumerically(g[0], h[0]);
    SameWidthDigitsEqualNumerically(g[0], h[0]);
    var u, v := GroupValues(g), GroupValues(h);
    if |g| == 1 {
      assert !NumericBelow(u[1..], v[1..]);
    } else {
      var jg, jh := Join(g[1..], "."), Join(h[1..], ".");
      SameLayoutJoinsCompareNumerically(g[1..], h[1..]);
      assert GroupValues(g[1..]) == u[1..] && GroupValues(h[1..]) == v[1..];
      assert Join(g, ".") == g[0] + ("." + jg);
      assert Join(h, ".") == h[0] + ("." + jh);
      BelowConcat(g[0], "." + jg, h[0], "." + jh);
      BelowConcat(".", jg, ".", jh);
      BelowIsStrict(".", ".");
    }
  }

  /** Where the running and the minimum version lay their groups out with the
      same widths, the firmware check passes exactly when the running version
      is numerically at least the minimum; otherwise (as for "10.0.0.0"
      against "4.40.00.00") the plain string comparison decides. */
  lemma SameLayoutVersionsCompareNumerically(g: seq<string>, h: seq<string>)
    requires VersionGroups(g) && VersionGroups(h)
    requires forall i :: 0 <= i < 4 ==> |g[i]| == |h[i]|
    ensures CheckFirmwareVersion(Answer(Join(g, ".")), Join(h, ".")).success <==>
      !NumericBelow(GroupValues(g), GroupValues(h))
  {
    assert SpellsVersion(g, Join(g, "."));
    VersionPatternMatchesExactly(Join(g, "."));
    SameLayoutJoinsCompareNumerically(g, h);
  }

  // ===========================================================================
  // check_hardware_compatibility

  /** A numeric field of a summary as `summary.get(key, 0)` reads it: absent
      (read as 0), present but JSON `null` (read as `None`), or a number. */
  datatype Reading = Absent | Null | Number(n: int)

  /** The parts of the system inventory the check reads: `ProcessorSummary.Count`
      and `MemorySummary.TotalSystemMemoryGiB`. A missing summary reads as an
      absent field. */
  datatype SystemInfo = SystemInfo(processorCount: Reading, totalMemoryGiB: Reading)

  /** `summary.get(key, 0)`: 0 for an absent field, `None` for a null one. */
  function CountOrZero(field: Reading): Option<int>
  {
    match field
    case Absent => Some(0)
    case Null => None
    case Number(n) => Some(n)
  }

  /** How an f-string renders an `int` or `None`. */
  function ShownCount(v: Option<int>): string
  {
    match v
    case Some(n) => IntToDecimal(n)
    case None => "None"
  }

  /** The text of the `TypeError` that `None < n` raises for an `int` `n`. */
  const NoneBelowIntError := "'<' not supported between instances of 'NoneType' and 'int'"

  /** The test `cpu_count < min_cpu_count or memory_gb < min_memory_gb` is
      evaluated left to right and stops at the first shortfall, so a null field
      raises only when its own comparison is reached: a null CPU count always,
      a null memory size only when the CPUs suffice. A shortfall message shows
      a null memory size as "None". */
  function CheckHardwareCompatibility(info: Query<SystemInfo>, minCpuCount: int, minMemoryGb: int): (r: CheckResult)
    ensures info.Raised? ==>
      r == CheckResult(false, "Error checking hardware compatibility: " + info.error)
    ensures info.Answer? ==>
      var cpus, mem := CountOrZero(info.value.processorCount), CountOrZero(info.value.totalMemoryGiB);
      && (r.success <==> cpus.Some? && mem.Some? && minCpuCount <= cpus.value && minMemoryGb <= mem.value)
      && ((cpus.None? || (minCpuCount <= cpus.value && mem.None?)) ==>
          r == CheckResult(false, "Error checking hardware compatibility: " + NoneBelowIntError))
      && ((cpus.Some? && (cpus.value < minCpuCount || (mem.Some? && mem.value < minMemoryGb))) ==>
          r == CheckResult(false, "Hardware does not meet minimum requirements. CPUs: "
                                  + IntToDecimal(cpus.value) + "/" + IntToDecimal(minCpuCount)
                                  + ", RAM: " + ShownCount(mem) + "/" + IntToDecimal(minMemoryGb) + "GB"))
      && (r.success ==>
          r.message == "Hardware meets minimum requirements. CPUs: "
                       + IntToDecimal(cpus.value) + ", RAM: " + IntToDecimal(mem.value) + "GB")
  {
    match info
    case Raised(e) => CheckResult(false, "Error checking hardware compatibility: " + e)
    case Answer(system) =>
      var cpuCount := CountOrZero(system.processorCount);
      var memoryGb := CountOrZero(system.totalMemoryGiB);
      match cpuCount
      case None => CheckResult(false, "Error checking hardware compatibility: " + NoneBelowIntError)
      case Some(cpus) =>
        if cpus < minCpuCount || (memoryGb.Some? && memoryGb.value < minMemoryGb) then
          CheckResult(false, "Hardware does not meet minimum requirements. CPUs: "
                             + IntToDecimal(cpus) + "/" + IntToDecimal(minCpuCount)
                             + ", RAM: " + ShownCount(memoryGb) + "/" + IntToDecimal(minMemoryGb) + "GB")
        else if memoryGb.None? then
          CheckResult(false, "Error checking hardware compatibility: " + NoneBelowIntError)
        else
          CheckResult(true, "Hardware meets minimum requirements. CPUs: "
                            + IntToDecimal(cpus) + ", RAM: " + IntToDecimal(memoryGb.value) + "GB")
  }

  /** An inventory without the summaries is a machine with no CPUs and no
      memory: it passes only minimums of zero or below. */
  lemma MissingInventoryCountsAsZero(minCpuCount: int, minMemoryGb: int)
    ensures CheckHardwareCompatibility(Answer(SystemInfo(Absent, Absent)), minCpuCount, minMemoryGb).success
            <==> minCpuCount <= 0 && minMemoryGb <= 0
  {
  }

  /** Two CPUs and 16 GiB against the defaults of 4 and 32: the message gives
      both pairs, "2/4" and "16/32". */
  lemma HardwareShortfallExample()
    ensures CheckHardwareCompatibility(Answer(SystemInfo(Number(2), Number(16))),
                                       DefaultMinCpuCount, DefaultMinMemoryGb) ==
      CheckResult(false, "Hardware does not meet minimum requirements. CPUs: "
                         + "2" + "/" + "4" + ", RAM: " + "16" + "/" + "32" + "GB")
  {
    assert IntToDecimal(2) == "2";
    assert IntToDecimal(4) == "4";
    assert IntToDecimal(16) == "16" by {
      assert NatToDecimal(16) == NatToDecimal(1) + [DigitChar(6)];
    }
    assert IntToDecimal(32) == "32" by {
      assert NatToDecimal(32) == NatToDecimal(3) + [DigitChar(2)];
    }
  }

  /** A null memory size next to too few CPUs is never compared: the shortfall
      is reported with the memory shown as "None". */
  lemma NullMemoryShownWhenCpusFallShort()
    ensures CheckHardwareCompatibility(Answer(SystemInfo(Number(2), Null)),
                                       DefaultMinCpuCount, DefaultMinMemoryGb) ==
      CheckResult(false, "Hardware does not meet minimum requirements. CPUs: "
                         + "2" + "/" + "4" + ", RAM: " + "None" + "/" + "32" + "GB")
  {
    assert IntToDecimal(2) == "2";
    assert IntToDecimal(4) == "4";
    assert IntToDecimal(32) == "32" by {
      assert NatToDecimal(32) == NatToDecimal(3) + [DigitChar(2)];
    }
  }

  /** With enough CPUs, the same null memory size is compared and raises. */
  lemma NullMemoryRaisesWhenCpusSuffice(cpus: int, minCpuCount: int, minMemoryGb: int)
    requires minCpuCount <= cpus
    ensures CheckHardwareCompatibility(Answer(SystemInfo(Number(cpus), Null)), minCpuCount, minMemoryGb) ==
      CheckResult(false, "Error checking hardware compatibility: " + NoneBelowIntError)
  {
  }

  // ===========================================================================
  // check_system_health

  /** `get_system_health()["Status"]["Health"]`, `None` when absent. */
  function CheckSystemHealth(health: Query<Option<string>>): (r: CheckResult)
    ensures r.success <==> health == Answer(Some("OK"))
    ensures health.Raised? ==>
      r == CheckResult(false, "Error checking system health: " + health.error)
    ensures health.Answer? ==>
      r.message == if r.success then "System health is good"
                   else "System health is not OK: " + Shown(health.value)
  {
    match health
    case Raised(e) => CheckResult(false, "Error checking system health: " + e)
    case Answer(status) =>
      if status == Some("OK") then CheckResult(true, "System health is good")
      else CheckResult(false, "System health is not OK: " + Shown(status))
  }

  lemma HealthWarningExample()
    ensures CheckSystemHealth(Answer(Some("Warning"))) ==
      CheckResult(false, "System health is not OK: Warning")
  {
  }

  // ===========================================================================
  // check_raid_configuration

  /** One entry of the RAID controller list: its `Id` (`None` when absent) and
      the outcome of reading its `Status.Health`. That is the value (`None` when
      absent), or the text of the exception raised when `Status` is `null` or
      the entry is not a dictionary. */
  datatype Controller = Controller(id: Option<string>, health: Query<Option<string>>)

  predicate Healthy(c: Controller) { c.health == Answer(Some("OK")) }

  /** The position of the first controller, in list order, that is not
      healthy, whether its health is another value or reading it raises;
      `None` when every controller is healthy. */
  function FirstUnhealthy(controllers: seq<Controller>): (r: Option<nat>)
    ensures r.None? <==> forall i :: 0 <= i < |controllers| ==> Healthy(controllers[i])
    ensures r.Some? ==>
      && r.value < |controllers|
      && !Healthy(controllers[r.value])
      && forall j :: 0 <= j < r.value ==> Healthy(controllers[j])
  {
    if |controllers| == 0 then None
    else if !Healthy(controllers[0]) then Some(0)
    else match FirstUnhealthy(controllers[1..])
      case None => None
      case Some(k) => Some(k + 1)
  }

  /** What the loop stops on at an unhealthy controller: the exception raised
      while reading its health, or the report naming it. */
  function UnhealthyOutcome(c: Controller): CheckResult
  {
    match c.health
    case Raised(e) => CheckResult(false, "Error checking RAID configuration: " + e)
    case Answer(_) => CheckResult(false, "RAID controller " + Shown(c.id) + " health is not OK")
  }

  /** The loop stops at the first controller that is not healthy, so a
      controller whose health cannot be read raises only when every
      controller before it is healthy. */
  function CheckRaidConfiguration(raid: Query<seq<Controller>>): (r: CheckResult)
    ensures raid.Raised? ==>
      r == CheckResult(false, "Error checking RAID configuration: " + raid.error)
    ensures raid == Answer([]) ==> r == CheckResult(false, "No RAID controllers found")
    ensures r.success <==>
      raid.Answer? && |raid.value| > 0 && forall i :: 0 <= i < |raid.value| ==> Healthy(raid.value[i])
    ensures r.success ==> r.message == "RAID configuration is healthy"
    ensures raid.Answer? ==>
      forall k ::
        (0 <= k < |raid.value| && !Healthy(raid.value[k])
         && forall j :: 0 <= j < k ==> Healthy(raid.value[j])) ==>
        r == UnhealthyOutcome(raid.value[k])
  {
    match raid
    case Raised(e) => CheckResult(false, "Error checking RAID configuration: " + e)
    case Answer(controllers) =>
      if |controllers| == 0 then CheckResult(false, "No RAID controllers found")
      else match FirstUnhealthy(controllers)
        case Some(k) =>
          assert forall m ::
            (0 <= m < |controllers| && !Healthy(controllers[m])
             && forall j :: 0 <= j < m ==> Healthy(controllers[j])) ==> m == k;
          UnhealthyOutcome(controllers[k])
        case None => CheckResult(true, "RAID configuration is healthy")
  }

  /** Only the first unhealthy controller counts: after a healthy controller,
      the second one decides the outcome, whatever follows. */
  lemma RaidReportsFirstFailureOnly(first: Controller, second: Controller, rest: seq<Controller>)
    requires Healthy(first) && !Healthy(second)
    ensures CheckRaidConfiguration(Answer([first, second] + rest)) == UnhealthyOutcome(second)
  {
    var cs := [first, second] + rest;
    assert cs[0] == first && cs[1] == second;
  }

  /** A controller whose health cannot be read is not reached after an
      unhealthy one: the earlier controller is reported instead. */
  lemma UnhealthyControllerShadowsLaterError(first: Controller, second: Controller, rest: seq<Controller>)
    requires first.health.Answer? && !Healthy(first)
    requires second.health.Raised?
    ensures CheckRaidConfiguration(Answer([first, second] + rest)) ==
      CheckResult(false, "RAID controller " + Shown(first.id) + " health is not OK")
  {
    var cs := [first, second] + rest;
    assert cs[0] == first;
  }
}
