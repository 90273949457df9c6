/**
 * The per-instance loop of `handler`: parse, check enablement, resolve and
 * guard, once per instance, independently of every other instance. The
 * instances, the reference instant `now` and the trigger instant are inputs;
 * the provider calls are the output.
 */
module Handler {
  import opened Wrappers
  import opened Config
  import opened Resolver
  import opened Executor

  /** An instance as the inventory returns it: id, tags and observed state name. */
  datatype Instance = Instance(id: string, tags: seq<Tag>, stateName: string)

  /** What one instance contributes: nothing unless it has a configuration that is enabled. */
  function InstanceCalls(inst: Instance, now: Instant, trigger: Instant, cron: CronOracle): (r: seq<Call>)
    ensures |r| <= 1
    ensures forall call :: call in r ==> call.id == inst.id
  {
    match FromInstanceTags(inst.tags, now, cron)
    case None => []
    case Some(config) =>
      if config.enabled then DoStartStopAction(inst.id, inst.stateName, ResolveAction(config, trigger)) else []
  }

  /** The whole loop: the calls of each instance, in instance order. */
  function Dispatch(instances: seq<Instance>, now: Instant, trigger: Instant, cron: CronOracle): seq<Call>
    decreases |instances|
  {
    if |instances| == 0 then []
    else InstanceCalls(instances[0], now, trigger, cron) + Dispatch(instances[1..], now, trigger, cron)
  }

  /** Configuration present and enabled: the condition under which an instance is acted on. */
  predicate Active(inst: Instance, now: Instant, cron: CronOracle) {
    FromInstanceTags(inst.tags, now, cron).Some? && FromInstanceTags(inst.tags, now, cron).value.enabled
  }

  /** `call` is one the guard lets through for the active instance `inst`. */
  predicate Admits(inst: Instance, call: Call, now: Instant, cron: CronOracle) {
    && inst.id == call.id
    && Active(inst, now, cron)
    && (call.command == StartInstance ==> inst.stateName == Stopped)
    && (call.command == StopInstance ==> inst.stateName == Running)
  }

  /** A missing or disabled configuration yields no call. */
  lemma InactiveInstanceIsSkipped(inst: Instance, now: Instant, trigger: Instant, cron: CronOracle)
    requires !Active(inst, now, cron)
    ensures InstanceCalls(inst, now, trigger, cron) == []
  {
  }

  /**
   * An instance's call, when there is one, is the guarded form of its
   * resolved action: START only on a stopped instance, STOP only on a running one.
   */
  lemma InstanceCallsSpec(inst: Instance, now: Instant, trigger: Instant, cron: CronOracle)
    ensures Call(inst.id, StartInstance) in InstanceCalls(inst, now, trigger, cron) <==>
      Active(inst, now, cron) && inst.stateName == Stopped
      && ResolveAction(FromInstanceTags(inst.tags, now, cron).value, trigger) == Start
    ensures Call(inst.id, StopInstance) in InstanceCalls(inst, now, trigger, cron) <==>
      Active(inst, now, cron) && inst.stateName == Running
      && ResolveAction(FromInstanceTags(inst.tags, now, cron).value, trigger) == Stop
  {
  }

  /** The loop distributes over concatenation of the instance list. */
  lemma {:induction false} DispatchAppend(a: seq<Instance>, b: seq<Instance>, now: Instant, trigger: Instant, cron: CronOracle)
    ensures Dispatch(a + b, now, trigger, cron) == Dispatch(a, now, trigger, cron) + Dispatch(b, now, trigger, cron)
    decreases |a|
  {
    if |a| == 0 {
      assert a + b == b;
    } else {
      assert (a + b)[1..] == a[1..] + b;
      DispatchAppend(a[1..], b, now, trigger, cron);
    }
  }

  /**
   * Instance `i` contributes exactly its own calls, placed between those of
   * the instances before it and those of the instances after it.
   */
  lemma DispatchIsConcatenation(instances: seq<Instance>, i: nat, now: Instant, trigger: Instant, cron: CronOracle)
    requires i < |instances|
    ensures Dispatch(instances, now, trigger, cron) ==
      Dispatch(instances[..i], now, trigger, cron)
      + InstanceCalls(instances[i], now, trigger, cron)
      + Dispatch(instances[i + 1..], now, trigger, cron)
  {
    assert instances == instances[..i] + ([instances[i]] + instances[i + 1..]);
    DispatchAppend(instances[..i], [instances[i]] + instances[i + 1..], now, trigger, cron);
    assert ([instances[i]] + instances[i + 1..])[1..] == instances[i + 1..];
  }

  /**
   * At most one call per instance, and every call belongs to an active
   * instance in the state that admits it.
   */
  lemma {:induction false} DispatchSafety(instances: seq<Instance>, now: Instant, trigger: Instant, cron: CronOracle)
    ensures |Dispatch(instances, now, trigger, cron)| <= |instances|
    ensures forall call :: call in Dispatch(instances, now, trigger, cron) ==>
      exists i :: 0 <= i < |instances| && Admits(instances[i], call, now, cron)
    decreases |instances|
  {
    if |instances| > 0 {
      var rest := instances[1..];
      DispatchSafety(rest, now, trigger, cron);
      forall call | call in Dispatch(instances, now, trigger, cron)
        ensures exists i :: 0 <= i < |instances| && Admits(instances[i], call, now, cron)
      {
        if call in InstanceCalls(instances[0], now, trigger, cron) {
          InstanceCallsSpec(instances[0], now, trigger, cron);
          assert call == Call(instances[0].id, call.command);
          assert Admits(instances[0], call, now, cron);
        } else {
          var i :| 0 <= i < |rest| && Admits(rest[i], call, now, cron);
          assert instances[i + 1] == rest[i];
        }
      }
    }
  }

  /** A fleet in which no instance is active produces no call at all. */
  lemma {:induction false} InactiveFleetIsSilent(instances: seq<Instance>, now: Instant, trigger: Instant, cron: CronOracle)
    requires forall i :: 0 <= i < |instances| ==> !Active(instances[i], now, cron)
    ensures Dispatch(instances, now, trigger, cron) == []
    decreases |instances|
  {
    if |instances| > 0 {
      assert !Active(instances[0], now, cron);
      InactiveFleetIsSilent(instances[1..], now, trigger, cron);
    }
  }

  /**
   * The instance query asks for instances that carry both a start and a stop
   * tag; every one of them that is acted on is resolved in schedule mode.
   */
  lemma QueriedInstancesUseScheduleMode(inst: Instance, now: Instant, cron: CronOracle)
    requires HasKey(inst.tags, StartTag) && HasKey(inst.tags, StopTag)
    requires Active(inst, now, cron)
    ensures ModeOf(FromInstanceTags(inst.tags, now, cron).value) == ScheduleMode
  {
    BothKeysGiveBothFirings(inst.tags, now, cron);
  }
}
