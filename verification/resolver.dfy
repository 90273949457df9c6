/**
 * Turning a configuration and the trigger instant into an action.
 *
 * With both firings present the resolver is in schedule mode: whichever of
 * the two boundaries fired more recently decides, and a tie stops. With only
 * one firing it is in trigger mode: it acts only when that firing is the
 * trigger instant itself.
 */
module Resolver {
  import opened Wrappers
  import opened Config

  /** `StartStopAction`, with the absent action made explicit. */
  datatype Action = Start | Stop | NoAction

  datatype Mode = ScheduleMode | TriggerMode

  function ModeOf(c: StartStopConfig): Mode {
    if c.prevStart.Some? && c.prevStop.Some? then ScheduleMode else TriggerMode
  }

  /** The action for an enabled configuration. */
  function ResolveAction(c: StartStopConfig, trigger: Instant): Action
  {
    if c.prevStart.Some? && c.prevStop.Some? then
      if c.prevStop.value < c.prevStart.value then Start else Stop
    else
      var onStart := if c.prevStart == Some(trigger) then Start else NoAction;
      if c.prevStop == Some(trigger) then Stop else onStart
  }

  /** Exactly one of the two firings is present. */
  predicate OneFiring(c: StartStopConfig) {
    c.prevStart.Some? != c.prevStop.Some?
  }

  /**
   * Schedule mode always acts: it starts exactly when the start firing is
   * strictly later than the stop firing, and stops otherwise, equality included.
   */
  lemma ScheduleModeOrder(c: StartStopConfig, trigger: Instant)
    requires ModeOf(c) == ScheduleMode
    ensures ResolveAction(c, trigger) != NoAction
    ensures ResolveAction(c, trigger) == Start <==> c.prevStop.value < c.prevStart.value
    ensures ResolveAction(c, trigger) == Stop <==> c.prevStart.value <= c.prevStop.value
  {
  }

  /** Schedule mode does not look at the trigger instant. */
  lemma ScheduleModeIgnoresTrigger(c: StartStopConfig, t1: Instant, t2: Instant)
    requires ModeOf(c) == ScheduleMode
    ensures ResolveAction(c, t1) == ResolveAction(c, t2)
  {
  }

  /** Equal firings fall to STOP. */
  lemma ScheduleModeTieStops(start: Instant, stop: Instant, enabled: bool, trigger: Instant)
    requires start == stop
    ensures ResolveAction(StartStopConfig(Some(start), Some(stop), enabled), trigger) == Stop
  {
  }

  /** Exchanging two distinct firings exchanges START and STOP. */
  lemma ScheduleModeSwap(a: Instant, b: Instant, enabled: bool, trigger: Instant)
    requires a != b
    ensures ResolveAction(StartStopConfig(Some(a), Some(b), enabled), trigger) == Start
       <==> ResolveAction(StartStopConfig(Some(b), Some(a), enabled), trigger) == Stop
    ensures ResolveAction(StartStopConfig(Some(a), Some(b), enabled), trigger)
         != ResolveAction(StartStopConfig(Some(b), Some(a), enabled), trigger)
  {
  }

  /**
   * Trigger mode: START exactly when the start firing is the trigger, STOP
   * exactly when the stop firing is, no action otherwise.
   */
  lemma TriggerModeExact(c: StartStopConfig, trigger: Instant)
    requires OneFiring(c)
    ensures ModeOf(c) == TriggerMode
    ensures ResolveAction(c, trigger) == Start <==> c.prevStart == Some(trigger)
    ensures ResolveAction(c, trigger) == Stop <==> c.prevStop == Some(trigger)
    ensures ResolveAction(c, trigger) == NoAction <==> c.prevStart != Some(trigger) && c.prevStop != Some(trigger)
  {
  }

  /** Trigger mode has no tolerance: a trigger off by any amount from the firing yields no action. */
  lemma TriggerModeNoTolerance(c: StartStopConfig, firing: Instant, offset: int)
    requires OneFiring(c)
    requires c.prevStart == Some(firing) || c.prevStop == Some(firing)
    requires offset != 0
    ensures ResolveAction(c, firing) != NoAction
    ensures ResolveAction(c, firing + offset) == NoAction
  {
  }
}
