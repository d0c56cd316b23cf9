# iDRAC advanced readiness checks, modelled in Dafny

The Ansible module `idrac_advanced_check` asks a server's iDRAC (a Redfish
management controller) four questions before a Harvester installation and
turns the answers into one pass/fail report:

- **firmware**: the running iDRAC firmware version must look like four
  dot-separated digit groups. It must also be at least the minimum version
  (default `4.40.00.00`). The comparison is Python's plain string `>=`.
- **hardware**: the processor count and the total memory in GiB must reach
  their minimums (defaults 4 and 32). A missing inventory field counts as 0.
- **system health**: the aggregate `Status.Health` must be exactly `"OK"`.
- **RAID**: there must be at least one RAID controller, and every controller's
  health must be `"OK"`. The first unhealthy controller, in list order, is
  the one reported.

Every check catches the exception its query may raise and reports it as a
failed check. `run_module` runs the four checks in a fixed order, always all
four. It records each `(success, message)` under the check function's name,
sets `failed` when any check failed, and writes one summary message. The only
fatal path is an exception raised while the Redfish connection is being
constructed.

The project has three modules:

- `PyText` (`py_text.dfy`) holds the Python string behaviour the checks rely
  on: `str.join` (the failure summary), the ordering of `str` by `<` and `>=`
  (the firmware comparison), and `str(int)` (the hardware messages). It also
  holds a one-character split. The source never splits a string; the model
  uses the split to decide the version pattern `re.match` tests. Each
  operation comes with an independent reference definition or an inverse,
  and lemmas connect the two.
- `ReadinessChecks` (`readiness_checks.dfy`) holds the four checks. Each
  remote query is an input of type `Query<T>`. A query is either
  `Answer(value)` or `Raised(error)`, where `error` is the exception's text.
- `IdracAdvancedCheck` (`advanced_check.dfy`) holds the check table and the
  `RunChecks` method. `RunChecks` is the loop of `run_module` that fills
  `failed_checks` and `check_results`; its loop invariants carry the proof.
  `RunModule` adds the fatal connection-construction path.

## Model

| member | source | states |
|---|---|---|
| PyText.Split | harvester-install/library/idrac_advanced_check.py:94 | the one-character split the model uses to decide the pattern: splitting yields at least one piece, and no piece holds the separator |
| PyText.JoinSplit | harvester-install/library/idrac_advanced_check.py:94 | for the split that decides the pattern, joining the pieces of a split with the separator gives the original string back |
| PyText.SplitJoin | harvester-install/library/idrac_advanced_check.py:94 | for the split that decides the pattern, splitting a join of separator-free pieces gives the pieces back |
| PyText.BelowIsLexicographic | harvester-install/library/idrac_advanced_check.py:95 | Python's `<` on `str` (code point by code point, proper prefix first) holds iff the strings first differ at some position where the left one ends or has the smaller character |
| PyText.BelowIsStrict | harvester-install/library/idrac_advanced_check.py:95 | `<` on `str` is irreflexive and asymmetric |
| PyText.BelowIsTransitive | harvester-install/library/idrac_advanced_check.py:95 | `<` on `str` is transitive |
| PyText.BelowIsTotal | harvester-install/library/idrac_advanced_check.py:95 | of two different strings, one is below the other |
| PyText.AtLeastIsLexicographic | harvester-install/library/idrac_advanced_check.py:95 | `version >= min_version` holds iff the two are equal or the minimum is lexicographically below the version |
| PyText.BelowConcat | harvester-install/library/idrac_advanced_check.py:95 | strings that start with pieces of equal length compare by those pieces first, and by the rest only when the pieces are equal |
| PyText.NatToDecimal | harvester-install/library/idrac_advanced_check.py:124-126 | a non-negative count is rendered as a non-empty run of digits without a leading zero |
| PyText.NatToDecimalRoundTrip | harvester-install/library/idrac_advanced_check.py:124-126 | reading the rendered digits of a non-negative count gives the count back |
| PyText.IntToDecimalRoundTrip | harvester-install/library/idrac_advanced_check.py:124-126 | every integer shown in a hardware message, negative ones included, can be parsed back to the same integer |
| PyText.SameWidthDigitsCompareNumerically | harvester-install/library/idrac_advanced_check.py:95 | two digit runs of the same width are ordered as strings exactly as their numbers are ordered |
| PyText.SameWidthDigitsEqualNumerically | harvester-install/library/idrac_advanced_check.py:95 | two digit runs of the same width are equal iff their numbers are equal |
| ReadinessChecks.VersionPatternMatchesExactly | harvester-install/library/idrac_advanced_check.py:94 | the split-based pattern test accepts exactly the strings that are four non-empty ASCII digit runs joined by dots, the language of `^\d+\.\d+\.\d+\.\d+$` |
| ReadinessChecks.CheckFirmwareVersion | harvester-install/library/idrac_advanced_check.py:81-102 | a query error fails with "Error checking firmware version: " and the error text; a malformed version fails with "Invalid firmware version format: " and the version; otherwise the check passes iff the version equals the minimum or is lexicographically above it, and the message says "is compatible" or "is below the minimum required version" with both versions |
| ReadinessChecks.MalformedVersionIgnoresMinimum | harvester-install/library/idrac_advanced_check.py:94-100 | for a malformed version no comparison is made: the result is the format failure, whatever the minimum |
| ReadinessChecks.NewerVersionPasses | harvester-install/library/idrac_advanced_check.py:95-96 | "4.50.00.00" passes against the default minimum "4.40.00.00" |
| ReadinessChecks.TwoDigitMajorVersionFails | harvester-install/library/idrac_advanced_check.py:95-98 | "10.0.0.0" fails against "4.40.00.00", because the comparison is on strings and not on numbers |
| ReadinessChecks.ShortVersionIsInvalid | harvester-install/library/idrac_advanced_check.py:94-100 | "4.5" fails with "Invalid firmware version format: 4.5" |
| ReadinessChecks.SameLayoutJoinsCompareNumerically | harvester-install/library/idrac_advanced_check.py:95 | dot-joined digit groups of pairwise equal widths compare as strings exactly as their numbers compare group by group |
| ReadinessChecks.SameLayoutVersionsCompareNumerically | harvester-install/library/idrac_advanced_check.py:94-98 | when the version and the minimum have groups of the same widths, the firmware check passes iff the version is numerically at least the minimum, group by group |
| ReadinessChecks.CheckHardwareCompatibility | harvester-install/library/idrac_advanced_check.py:105-128 | a query error fails with "Error checking hardware compatibility: " and the error text; an absent field reads as 0 and a null one as `None`; the check passes iff both fields are numbers reaching their minimums; the two comparisons run left to right and stop at the first shortfall, so a null CPU count always raises the `TypeError` of `None < int`, and a null memory size raises it only when the CPUs suffice; a shortfall message gives the CPU pair and the RAM pair, showing a null memory size as "None"; a pass message gives both amounts |
| ReadinessChecks.MissingInventoryCountsAsZero | harvester-install/library/idrac_advanced_check.py:120-123 | an inventory with neither summary passes only minimums of zero or less |
| ReadinessChecks.NullMemoryShownWhenCpusFallShort | harvester-install/library/idrac_advanced_check.py:123-124 | 2 CPUs and a null memory size against 4 and 32 fail with "CPUs: 2/4, RAM: None/32GB"; the memory is never compared |
| ReadinessChecks.NullMemoryRaisesWhenCpusSuffice | harvester-install/library/idrac_advanced_check.py:121-123 | with enough CPUs, a null memory size is compared and fails with the `TypeError` text |
| ReadinessChecks.HardwareShortfallExample | harvester-install/library/idrac_advanced_check.py:123-124 | 2 CPUs and 16 GiB against 4 and 32 fail with "CPUs: 2/4, RAM: 16/32GB" |
| ReadinessChecks.CheckSystemHealth | harvester-install/library/idrac_advanced_check.py:131-149 | the check passes iff the health value is exactly "OK"; any other value, absent (`None`) included, fails with a message citing it; a query error fails with "Error checking system health: " and the error text |
| ReadinessChecks.HealthWarningExample | harvester-install/library/idrac_advanced_check.py:144-147 | health "Warning" fails with "System health is not OK: Warning" |
| ReadinessChecks.FirstUnhealthy | harvester-install/library/idrac_advanced_check.py:168-170 | the search finds nothing iff every controller is healthy; otherwise it gives the least position whose health is not "OK", whether the value differs or reading it raises |
| ReadinessChecks.CheckRaidConfiguration | harvester-install/library/idrac_advanced_check.py:152-174 | a query error fails with "Error checking RAID configuration: " and the error text; an empty list fails with "No RAID controllers found"; the check passes iff the list is non-empty and every controller is "OK"; otherwise the first unhealthy controller in list order decides the result: if reading its health raised, the check fails with "Error checking RAID configuration: " and that error text; otherwise the message names its `Id`. A controller whose health cannot be read therefore raises only when every controller before it is healthy |
| ReadinessChecks.RaidReportsFirstFailureOnly | harvester-install/library/idrac_advanced_check.py:168-170 | with a healthy controller followed by an unhealthy one, the second one alone decides the result (its `Id`, or the error raised reading its health), whatever follows |
| ReadinessChecks.UnhealthyControllerShadowsLaterError | harvester-install/library/idrac_advanced_check.py:168-170 | an unhealthy controller followed by one whose health cannot be read is reported by its `Id`; the later error is never raised |
| IdracAdvancedCheck.ScheduleNamesDistinct | harvester-install/library/idrac_advanced_check.py:197-204 | the four check functions have different names, so no entry of `check_results` overwrites another |
| IdracAdvancedCheck.FailureMessagesConcat | harvester-install/library/idrac_advanced_check.py:205-206 | collecting failure messages keeps their order: the failures of a concatenation are those of the first part followed by those of the second |
| IdracAdvancedCheck.FailureMessagesEmpty | harvester-install/library/idrac_advanced_check.py:205-209 | no failure message is collected iff every check succeeded |
| IdracAdvancedCheck.FailureMessagesListFailures | harvester-install/library/idrac_advanced_check.py:205-206 | every failed check's message is collected, and every collected message comes from a failed check |
| IdracAdvancedCheck.RunChecks | harvester-install/library/idrac_advanced_check.py:197-214 | all four checks run once each, in the order firmware, hardware, health, RAID, whatever the earlier outcomes; each result is stored under its function name; `changed` is false; `failed` holds iff some check failed; `msg` is "All advanced iDRAC checks passed successfully" or "Advanced iDRAC checks failed: " followed by the failure messages in check order, joined by ", " |
| IdracAdvancedCheck.RunModule | harvester-install/library/idrac_advanced_check.py:192-219 | an error while constructing the connection gives a single fatal failure, "An error occurred during iDRAC checks: " and the error text, with no check results; otherwise the run ends with the report of the four checks |
| IdracAdvancedCheck.ResultsInScheduleOrder | harvester-install/library/idrac_advanced_check.py:197 | the checks run in the order firmware, hardware, health, RAID; the firmware check gets the minimum version, the hardware check gets the CPU and memory minimums, and each check gets its own query |
| IdracAdvancedCheck.ReportHasFourEntries | harvester-install/library/idrac_advanced_check.py:199-206 | every report holds exactly four check results and four keys in its key order |
| IdracAdvancedCheck.FailureSummaryInScheduleOrder | harvester-install/library/idrac_advanced_check.py:211-212 | the failure summary lists the firmware, hardware, health and RAID failure messages in that order |
| IdracAdvancedCheck.SingleFailureIsReportedAlone | harvester-install/library/idrac_advanced_check.py:205-212 | when exactly one check fails, the report is failed and its message is the prefix followed by that check's message alone |

## Left out

- Argument parsing by `AnsibleModule` is not modelled: required options, types, `no_log` on the password and check mode. Nor are `exit_json` and `fail_json` themselves. The three thresholds are a `Thresholds` value, and their defaults are `DefaultThresholds`.
- The `RedfishUtils` connection is not modelled: credentials, `root_uri`, the 30-second timeout and the Redfish wire protocol. Each query is an input that is either an answer or the text of the exception it raised. One run answers each query once, and every check asks exactly one query.
- The exact text of exception messages is an opaque string that is carried through. The one exception the checks raise themselves, comparing a null hardware field with its minimum, carries the `TypeError` text Python 3 gives for `None < int`.
- `IdracAdvancedCheck.RunModule`: the fatal path only covers an error while the connection is constructed. Inside that `try`, the checks catch their own exceptions, and nothing else can raise an `Exception`.
- `ReadinessChecks.CheckFirmwareVersion`: `\d` is read as ASCII `0`-`9` and the pattern as a full match. Python's `\d` also matches other Unicode decimal digits, and its `$` also accepts one trailing newline, so the model rejects a few strings the source accepts.
- `ReadinessChecks.CheckFirmwareVersion`: a firmware version that is not a `str` makes `re.match` raise, and it is treated as a query error.
- `ReadinessChecks.CheckHardwareCompatibility`: CPU count and memory are integers or null. Redfish reports `TotalSystemMemoryGiB` as a number that may be fractional, and Python would render it as, say, `16.0`. A summary that is present but `null` makes `.get` raise, and it is treated as a query error.
- `ReadinessChecks.CheckSystemHealth`: `Status.Health` is a string or absent. A `Status` that is present but `null` makes `.get` raise, and it is treated as a query error.
- `ReadinessChecks.CheckRaidConfiguration`: the controller list is a sequence, and the text of the exception raised by reading a controller's health is an input. A `None` answer, which the source treats like an empty list, is modelled as the empty list.
- The initial message "Advanced iDRAC checks completed" is always overwritten before the report is returned. It appears only as an intermediate value in `RunChecks`.
- Dictionary key order: `check_results` is a `map` paired with `resultOrder`, the order in which the keys were inserted. Python dictionaries keep this order.
