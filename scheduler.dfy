/**
 * The part of the discrete-event engine the agents use: the simulated clock
 * (`Simulator::Now`) and one-shot delayed callbacks (`Simulator::Schedule`).
 * Events are only ever appended; nothing here cancels one.
 */
module Scheduling {
  import opened Commons

  /** The static callbacks the agents arm, each bound to an agent index. */
  datatype Callback =
    | RecalculateTable(index: nat)
    | ResetNoria(index: nat)
    | UpdateReserved(index: nat)

  datatype Event = Event(time: Time, callback: Callback)

  class Scheduler {
    var now: Time
    var pending: seq<Event>

    constructor (start: Time)
      ensures now == start && pending == []
    {
      now := start;
      pending := [];
    }

    /** Arms `callback` to run `delay` seconds from now. */
    method Schedule(delay: Time, callback: Callback)
      modifies this
      ensures now == old(now)
      ensures pending == old(pending) + [Event(old(now) + delay, callback)]
    {
      pending := pending + [Event(now + delay, callback)];
    }
  }
}
