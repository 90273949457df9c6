/**
 * The fleet of the handler test (tests/test_handler.py): one enabled running
 * instance and one disabled stopped instance, both scheduled to start at
 * 06:00 and stop at 18:00. The wall clock is left open; the lemmas say what
 * the loop does on each side of the 06:00-18:00 window.
 */
module Scenarios {
  import opened Wrappers
  import opened Config
  import opened Executor
  import opened Handler

  const StartExpr: string := "0 6 * * *"
  const StopExpr: string := "0 18 * * *"

  function ScheduledTags(enable: string): seq<Tag> {
    [Tag(EnableTag, enable), Tag(StartTag, StartExpr), Tag(StopTag, StopExpr)]
  }

  function Fleet(): seq<Instance> {
    [ Instance("i-0ff1234", ScheduledTags("True"), Running),
      Instance("i-0ff1235", ScheduledTags("False"), Stopped) ]
  }

  /** The fixture's tags parse into an enabled (resp. disabled) schedule-mode configuration. */
  lemma FixtureConfigs(now: Instant, cron: CronOracle)
    requires cron(StartExpr, now).Success? && cron(StopExpr, now).Success?
    ensures FromInstanceTags(ScheduledTags("True"), now, cron)
      == Some(StartStopConfig(Some(cron(StartExpr, now).value), Some(cron(StopExpr, now).value), true))
    ensures FromInstanceTags(ScheduledTags("False"), now, cron)
      == Some(StartStopConfig(Some(cron(StartExpr, now).value), Some(cron(StopExpr, now).value), false))
  {
    TruthyExamples();
    assert ScheduledTags("True")[1..][1..][1..] == [];
    assert ScheduledTags("False")[1..][1..][1..] == [];
  }

  /**
   * Outside the window (the last 18:00 firing is not before the last 06:00
   * one) the running enabled instance is stopped and the disabled one is
   * left alone: exactly the single stop call the test expects.
   */
  lemma OutsideWindowStopsOnlyEnabledInstance(now: Instant, trigger: Instant, cron: CronOracle)
    requires cron(StartExpr, now).Success? && cron(StopExpr, now).Success?
    requires cron(StartExpr, now).value <= cron(StopExpr, now).value
    ensures Dispatch(Fleet(), now, trigger, cron) == [Call("i-0ff1234", StopInstance)]
  {
    FixtureConfigs(now, cron);
    assert Fleet()[1..][1..] == [];
  }

  /**
   * Inside the window the enabled instance should run, and already does, so
   * no call is made; the disabled instance is still left alone.
   */
  lemma InsideWindowIssuesNothing(now: Instant, trigger: Instant, cron: CronOracle)
    requires cron(StartExpr, now).Success? && cron(StopExpr, now).Success?
    requires cron(StopExpr, now).value < cron(StartExpr, now).value
    ensures Dispatch(Fleet(), now, trigger, cron) == []
  {
    FixtureConfigs(now, cron);
    assert Fleet()[1..][1..] == [];
  }

  /** A bad stop expression discards the whole configuration, even with a valid start expression. */
  lemma BadStopExpressionSkipsInstance(id: string, stateName: string, badStop: string, now: Instant, trigger: Instant, cron: CronOracle)
    requires cron(StartExpr, now).Success?
    requires cron(badStop, now).Failure?
    ensures Dispatch([Instance(id, [Tag(StartTag, StartExpr), Tag(StopTag, badStop)], stateName)], now, trigger, cron) == []
  {
    var tags := [Tag(StartTag, StartExpr), Tag(StopTag, badStop)];
    CronFailureYieldsNone(tags, 1, now, cron);
    assert Dispatch([Instance(id, tags, stateName)], now, trigger, cron)
        == InstanceCalls(Instance(id, tags, stateName), now, trigger, cron);
  }

  /**
   * A stopped instance with only a start tag is started exactly when the
   * trigger instant is the start firing itself, and otherwise left alone.
   */
  lemma StartOnlyInstanceNeedsExactTrigger(id: string, now: Instant, trigger: Instant, cron: CronOracle)
    requires cron(StartExpr, now).Success?
    ensures Dispatch([Instance(id, [Tag(StartTag, StartExpr)], Stopped)], now, trigger, cron)
      == (if trigger == cron(StartExpr, now).value then [Call(id, StartInstance)] else [])
  {
    var tags := [Tag(StartTag, StartExpr)];
    var config := StartStopConfig(Some(cron(StartExpr, now).value), None, true);
    assert tags[1..] == [];
    assert ApplyTag(Defaults, tags[0], now, cron) == Success(config);
    assert FoldTags(Defaults, tags, now, cron) == FoldTags(config, [], now, cron);
    assert FromInstanceTags(tags, now, cron) == Some(StartStopConfig(Some(cron(StartExpr, now).value), None, true));
    assert Dispatch([Instance(id, tags, Stopped)], now, trigger, cron)
        == InstanceCalls(Instance(id, tags, Stopped), now, trigger, cron);
  }
}
