# Start-stop schedule evaluation, modelled in Dafny

This project models the schedule-evaluation engine of an EC2 auto start-stop
function. The function reads three tag keys from each instance. It ignores
any other tags, and when a key repeats, its last occurrence decides:

- `start-stop:enable`, a feature flag;
- `start-stop:start`, a cron expression;
- `start-stop:stop`, a cron expression.

On every clock event the handler does four things for each instance:

1. It folds the instance's tags into a configuration. The configuration holds
   the previous start firing, the previous stop firing and the enabled flag.
   The fold is all-or-nothing.
2. It resolves the configuration and the trigger instant into START, STOP or
   no action. There are two modes:
   - *schedule mode*, when both firings are present: the later firing wins,
     and a tie stops;
   - *trigger mode*, when only one firing is present: it acts only on an exact
     match with the trigger.
3. It passes the action through a state guard. START goes through only on a
   `stopped` instance, and STOP only on a `running` one.
4. It emits at most one provider call for that instance.

Modules, one per part of `app/main.py`:

- `Wrappers` (`wrappers.dfy`): `Option` and `Result`.
- `Config` (`config.dfy`): the tag-key constants, the truthy vocabulary, the
  tag fold, `from_instance_tags`, and reference definitions ("the last tag
  with this key") that the fold is proved against.
- `Resolver` (`resolver.dfy`): the action and the two resolution modes.
- `Executor` (`executor.dfy`): `do_start_stop_action` as a function that
  returns the calls it would make.
- `Handler` (`handler.dfy`): the per-instance loop of `handler`.
- `Scenarios` (`scenarios.dfy`): the fleet of `tests/test_handler.py` and a
  few end-to-end cases.

Instants are integers, already normalised to the configured time zone. The
cron library is a function-typed parameter
`cron: (string, Instant) -> Result<Instant, CronError>`. Nothing is assumed
about it: not that a firing lies at or before the reference instant, and not
that it is deterministic beyond being a function. Provider calls are returned
as a sequence of `Call(id, StartInstance | StopInstance)`.

One consequence is worth noting. The instance query (app/main.py:97-98) only
returns instances that carry both a start tag and a stop tag. For every such
instance a configuration, when one exists, has both firings
(`Config.BothKeysGiveBothFirings`, `Handler.QueriedInstancesUseScheduleMode`).
So the trigger-mode branch (app/main.py:112-119) is never reached by the
deployed handler. The model still covers that branch on its own.

Two behaviours of the code are easy to misread:

- A bad cron expression on either schedule tag discards the whole
  configuration, even when the other tag is valid (app/main.py:46-56). It does
  not just unset that one tag.
- A failing provider call is not caught per instance (app/main.py:121).

## Model

| member | source | states |
|---|---|---|
| Config.ParseConfig | app/main.py:44-62 | a returned configuration always has a start or a stop firing; "no schedule" is reported only when every cron evaluation succeeded |
| Config.FoldTagsSpec | app/main.py:45-56 | the tag loop succeeds exactly when every start/stop tag's expression evaluates; on success each field holds the meaning of the last tag with its key, or the initial value when there is no such tag |
| Config.FoldTagsFirstFailure | app/main.py:46-56 | a failing loop fails with the error of some start/stop tag all of whose predecessors evaluated, which is the first failing one |
| Config.FromInstanceTagsSpec | app/main.py:44-62 | a configuration is returned iff all start/stop expressions evaluate and a start or stop tag exists; it carries the last start firing, the last stop firing and the last enable value's meaning, true by default |
| Config.LastValueIsLastOccurrence | app/main.py:47-53 | the "last value" reference is absent iff no tag has the key, and otherwise is the value of an occurrence after which the key never recurs |
| Config.LatestFiringPresent | app/main.py:47-51 | when every expression evaluates, a firing is recorded for a schedule key iff that key occurs among the tags |
| Config.EnabledDefaultsToTrue | app/main.py:45 | without an enable tag a returned configuration is enabled |
| Config.LastEnableTagWins | app/main.py:47-53 | with the enable key repeated, the last occurrence alone decides the flag |
| Config.CronFailureYieldsNone | app/main.py:46-56 | one failing start or stop expression anywhere in the tags yields no configuration, whatever the other tags hold |
| Config.NoScheduleYieldsNone | app/main.py:58-62 | tags with neither a start nor a stop key yield no configuration |
| Config.BothKeysGiveBothFirings | app/main.py:44-62 | if both schedule keys occur, a returned configuration has both firings |
| Config.TruthyIgnoresCase | app/main.py:53 | an enable value is truthy iff it equals one of enabled, yes, true, 1, on ignoring letter case |
| Config.TruthyExamples | app/main.py:53 | True, YES, Enabled, 1 and oN are truthy; False, 0, the empty string and "enable" are not |
| Resolver.ScheduleModeOrder | app/main.py:104-111 | with both firings the resolver always acts: START iff the stop firing is strictly earlier than the start firing, STOP iff start is at or before stop |
| Resolver.ScheduleModeIgnoresTrigger | app/main.py:104-111 | with both firings the action is the same for every trigger instant |
| Resolver.ScheduleModeTieStops | app/main.py:106-111 | equal start and stop firings resolve to STOP |
| Resolver.ScheduleModeSwap | app/main.py:106-111 | exchanging two distinct firings exchanges START and STOP |
| Resolver.TriggerModeExact | app/main.py:112-119 | with exactly one firing: START iff the start firing equals the trigger, STOP iff the stop firing equals it, no action iff neither does |
| Resolver.TriggerModeNoTolerance | app/main.py:112-119 | with exactly one firing, a trigger at the firing acts and a trigger off by any non-zero amount does not |
| Executor.DoStartStopAction | app/main.py:70-83 | at most one call, always for the given instance; a start call iff the action is START and the state is stopped; a stop call iff the action is STOP and the state is running |
| Executor.GuardNeverReissues | app/main.py:75-83 | a running instance is never started and a stopped one never stopped; a missing action issues nothing |
| Executor.RepeatAfterTransitionIsNoOp | app/main.py:75-83 | once the state differs from the one that let a call through, the same action issues nothing |
| Executor.OtherStatesAreNoOps | app/main.py:77-83 | any state other than stopped or running issues nothing |
| Handler.InstanceCalls | app/main.py:100-121 | an instance yields at most one call, and it carries that instance's id |
| Handler.InactiveInstanceIsSkipped | app/main.py:101-102 | an instance without a configuration, or with a disabled one, yields no call |
| Handler.InstanceCallsSpec | app/main.py:101-121 | an instance is started iff it is active, stopped and resolves to START; it is stopped iff it is active, running and resolves to STOP |
| Handler.DispatchAppend | app/main.py:97-121 | the calls for a concatenated instance list are the concatenation of the calls for each part |
| Handler.DispatchIsConcatenation | app/main.py:97-121 | instance i contributes exactly its own calls, between those of the instances before and after it |
| Handler.DispatchSafety | app/main.py:97-121 | there are no more calls than instances, and every call belongs to an active instance in the state its command requires |
| Handler.InactiveFleetIsSilent | app/main.py:97-102 | if no instance is active, the loop makes no call |
| Handler.QueriedInstancesUseScheduleMode | app/main.py:97-106 | every active instance that the query can return is resolved in schedule mode |
| Scenarios.FixtureConfigs | tests/test_handler.py:13-38 | the test's tags parse to an enabled and a disabled configuration carrying both firings |
| Scenarios.OutsideWindowStopsOnlyEnabledInstance | tests/test_handler.py:47-55 | when the last stop firing is not before the last start firing, the test fleet yields exactly one stop call, for i-0ff1234 |
| Scenarios.InsideWindowIssuesNothing | app/main.py:102-121 | when the last start firing is later, the running instance is already in its target state and the disabled one is skipped, so no call is made |
| Scenarios.BadStopExpressionSkipsInstance | app/main.py:46-56 | a valid start tag with a failing stop tag yields no call |
| Scenarios.StartOnlyInstanceNeedsExactTrigger | app/main.py:112-121 | a stopped instance with only a start tag is started iff the trigger equals the start firing |

## Left out

- The boto3 resource, the instance query and the real `start()`/`stop()` calls (app/main.py:31, 79, 83, 97-98) are network I/O. Instances are an input list and calls are an output list. The query's filter appears only as a precondition of the two schedule-mode lemmas.
- A provider call that raises aborts the rest of the loop in the code. Calls are outputs here, so provider failures are not modelled.
- Cron evaluation (app/main.py:18, 49, 51) belongs to a foreign library. It is an unconstrained function parameter, and its three caught exceptions are the three `CronError` values.
- Time zone lookup, ISO-8601 parsing of the event time and `datetime.now` (app/main.py:19-20, 28, 92-93) are environment concerns. `now` and `trigger` are integer parameters.
- The diagnostics printed at app/main.py:55, 61, 78, 82, 95, 100, 105 and 113 are output only. `Config.ParseConfig` keeps the reason for a missing configuration, which the code only prints.
- Config.TruthyIgnoresCase: Python's `str.lower()` is Unicode-aware, but the model lower-cases ASCII letters only. No non-ASCII character lowers to a letter of the five vocabulary words, so the flag comes out the same.
- Tags without a `Key` or `Value` entry, and non-string values, are not modelled: tags are pairs of strings.
- The test depends on the wall clock. The scenarios therefore state their result for each order of the two firings, rather than for a fixed `now`.
