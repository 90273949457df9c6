/**
 * `do_start_stop_action`: the state guard in front of the provider's start
 * and stop calls. A call is returned instead of being made.
 */
module Executor {
  import opened Resolver

  /** The observed state names that admit a transition. */
  const Stopped: string := "stopped"
  const Running: string := "running"

  datatype Command = StartInstance | StopInstance

  /** One provider call: `instance.start()` or `instance.stop()` on the instance `id`. */
  datatype Call = Call(id: string, command: Command)

  /** The calls the guard lets through for an instance in state `stateName`. */
  function DoStartStopAction(id: string, stateName: string, action: Action): (r: seq<Call>)
    ensures |r| <= 1
    ensures forall call :: call in r ==> call.id == id
    ensures Call(id, StartInstance) in r <==> action == Start && stateName == Stopped
    ensures Call(id, StopInstance) in r <==> action == Stop && stateName == Running
  {
    if action == Start then
      if stateName == Stopped then [Call(id, StartInstance)] else []
    else if action == Stop then
      if stateName == Running then [Call(id, StopInstance)] else []
    else
      []
  }

  /** The guard never starts a running instance nor stops a stopped one; no action means no call. */
  lemma GuardNeverReissues(id: string, action: Action)
    ensures forall call :: call in DoStartStopAction(id, Running, action) ==> call.command == StopInstance
    ensures forall call :: call in DoStartStopAction(id, Stopped, action) ==> call.command == StartInstance
    ensures DoStartStopAction(id, Stopped, action) == [] <==> action != Start
    ensures DoStartStopAction(id, Running, action) == [] <==> action != Stop
    ensures DoStartStopAction(id, Stopped, NoAction) == [] && DoStartStopAction(id, Running, NoAction) == []
  {
  }

  /**
   * Repetition is harmless: once the instance has left the state that let a
   * call through (it is pending, running, stopping, ...), the same action
   * issues nothing.
   */
  lemma RepeatAfterTransitionIsNoOp(id: string, before: string, after: string, action: Action)
    requires DoStartStopAction(id, before, action) != []
    requires after != before
    ensures DoStartStopAction(id, after, action) == []
  {
  }

  /** States other than stopped and running never admit a call. */
  lemma OtherStatesAreNoOps(id: string, stateName: string, action: Action)
    requires stateName != Stopped && stateName != Running
    ensures DoStartStopAction(id, stateName, action) == []
  {
  }
}
