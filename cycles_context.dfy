/**
 * The cycles context: the state container the pages share. It holds the reducer state
 * (history and active id) and the seconds-passed counter, and offers createNewCycle,
 * interruptCurrentCycle, markCurrentCycleAsFinished and setSecondsPassed.
 */
module CyclesContext {
  import opened Wrappers
  import opened Cycles

  class CycleStore {
    var cycles: seq<Cycle>
    var activeCycleId: Option<Id>
    /** Seconds of the active cycle already counted down. */
    var amountSecondsPassed: int
    /** Every action handed to the reducer, oldest first. */
    ghost var dispatched: seq<Action>

    /** The reducer's part of the state. */
    function State(): CyclesState
      reads this
    {
      CyclesState(cycles, activeCycleId)
    }

    ghost predicate Valid()
      reads this
    {
      WellFormed(State())
    }

    /** The `activeCycle` value of the context: the history entry the active id names. */
    function ActiveCycle(): (r: Option<Cycle>)
      reads this
      ensures r.Some? ==> r.value in cycles && Some(r.value.id) == activeCycleId
    {
      Cycles.ActiveCycle(State())
    }

    constructor ()
      ensures cycles == [] && activeCycleId == None && amountSecondsPassed == 0
      ensures dispatched == []
      ensures Valid() && Settled(State())
    {
      cycles := InitialState.cycles;
      activeCycleId := InitialState.activeCycleId;
      amountSecondsPassed := 0;
      dispatched := [];
    }

    /** useReducer's dispatch: hands `action` to the reducer at time `now`. */
    method Dispatch(action: Action, now: Millis)
      modifies this
      ensures State() == CyclesReducer(old(State()), action, now)
      ensures dispatched == old(dispatched) + [action]
      ensures amountSecondsPassed == old(amountSecondsPassed)
    {
      var next := CyclesReducer(State(), action, now);
      cycles, activeCycleId := next.cycles, next.activeCycleId;
      dispatched := dispatched + [action];
    }

    /**
     * Builds a cycle from `data` with the fresh id `id` and start date `now`, dispatches
     * its creation and resets the seconds-passed counter.
     */
    method CreateNewCycle(data: CreateCycleData, id: Id, now: Millis)
      requires Valid()
      requires forall i :: 0 <= i < |cycles| ==> cycles[i].id != id
      modifies this
      ensures var c := Cycle(id, data.task, data.minutesAmount, now, None, None);
        && dispatched == old(dispatched) + [Action.CreateNewCycle(c)]
        && State() == CyclesReducer(old(State()), Action.CreateNewCycle(c), now)
        && cycles == old(cycles) + [c]
        && ActiveCycle() == Some(c)
      ensures amountSecondsPassed == 0
      ensures Valid()
      ensures old(activeCycleId).None? && old(Settled(State())) ==> Settled(State())
    {
      var newCycle := Cycle(id, data.task, data.minutesAmount, now, None, None);
      ghost var before := State();
      ReducerPreservesWellFormed(before, Action.CreateNewCycle(newCycle), now);
      if before.activeCycleId.None? && Settled(before) {
        ReducerPreservesSettled(before, Action.CreateNewCycle(newCycle), now);
      }
      Dispatch(Action.CreateNewCycle(newCycle), now);
      assert cycles[|cycles| - 1] == newCycle;
      amountSecondsPassed := 0;
    }

    /** Dispatches the interrupt of the active cycle; the counter is left as it is. */
    method InterruptCurrentCycle(now: Millis)
      requires Valid()
      modifies this
      ensures dispatched == old(dispatched) + [Action.InterruptCurrentCycle]
      ensures State() == CyclesReducer(old(State()), Action.InterruptCurrentCycle, now)
      ensures activeCycleId.None? && ActiveCycle().None?
      ensures |cycles| == |old(cycles)|
      ensures forall i :: 0 <= i < |cycles| ==>
        cycles[i] == if Some(old(cycles)[i].id) == old(activeCycleId)
                     then old(cycles)[i].(interruptedDate := Some(now)) else old(cycles)[i]
      ensures amountSecondsPassed == old(amountSecondsPassed)
      ensures Valid()
      ensures old(Settled(State())) ==> Settled(State())
    {
      Stop(Action.InterruptCurrentCycle, now);
    }

    /** Dispatches the finish of the active cycle; the counter is left as it is. */
    method MarkCurrentCycleAsFinished(now: Millis)
      requires Valid()
      modifies this
      ensures dispatched == old(dispatched) + [Action.MarkCurrentCycleAsFinished]
      ensures State() == CyclesReducer(old(State()), Action.MarkCurrentCycleAsFinished, now)
      ensures activeCycleId.None? && ActiveCycle().None?
      ensures |cycles| == |old(cycles)|
      ensures forall i :: 0 <= i < |cycles| ==>
        cycles[i] == if Some(old(cycles)[i].id) == old(activeCycleId)
                     then old(cycles)[i].(finishedDate := Some(now)) else old(cycles)[i]
      ensures amountSecondsPassed == old(amountSecondsPassed)
      ensures Valid()
      ensures old(Settled(State())) ==> Settled(State())
    {
      Stop(Action.MarkCurrentCycleAsFinished, now);
    }

    /** The shared body of interrupt and finish. */
    method Stop(action: Action, now: Millis)
      requires Valid() && !action.CreateNewCycle?
      modifies this
      ensures dispatched == old(dispatched) + [action]
      ensures State() == CyclesReducer(old(State()), action, now)
      ensures activeCycleId.None? && ActiveCycle().None?
      ensures |cycles| == |old(cycles)|
      ensures forall i :: 0 <= i < |cycles| ==>
        cycles[i] == if Some(old(cycles)[i].id) == old(activeCycleId)
                     then (if action.InterruptCurrentCycle?
                           then old(cycles)[i].(interruptedDate := Some(now))
                           else old(cycles)[i].(finishedDate := Some(now)))
                     else old(cycles)[i]
      ensures amountSecondsPassed == old(amountSecondsPassed)
      ensures Valid()
      ensures old(Settled(State())) ==> Settled(State())
    {
      ghost var before := State();
      ReducerPreservesWellFormed(before, action, now);
      StopStampsActiveCycle(before, now, action.InterruptCurrentCycle?);
      if Settled(before) {
        ReducerPreservesSettled(before, action, now);
      }
      Dispatch(action, now);
    }

    /** Stores `seconds` as the seconds passed; nothing else changes. */
    method SetSecondsPassed(seconds: int)
      modifies this`amountSecondsPassed
      ensures amountSecondsPassed == seconds
    {
      amountSecondsPassed := seconds;
    }
  }
}
