/**
 * The new-cycle form component: both inputs are disabled while a cycle is active, and
 * the task input suggests the tasks of the history.
 */
module NewCycleForm {
  import opened Wrappers
  import opened Cycles
  import Home

  /** `disabled={Boolean(activeCycle)}` on the task input. */
  function TaskInputDisabled(cycles: seq<Cycle>, activeCycleId: Option<Id>): (r: bool)
    ensures r <==> exists i :: 0 <= i < |cycles| && Some(cycles[i].id) == activeCycleId
  {
    Find(cycles, activeCycleId).Some?
  }

  /** `disabled={!!activeCycle}` on the minutes input: always in step with the task input. */
  function MinutesInputDisabled(cycles: seq<Cycle>, activeCycleId: Option<Id>): (r: bool)
    ensures r == TaskInputDisabled(cycles, activeCycleId)
  {
    !!Find(cycles, activeCycleId).Some?
  }

  /** With the history invariant the inputs are disabled exactly while a cycle is active. */
  lemma InputsDisabledIffActive(s: CyclesState)
    requires WellFormed(s)
    ensures TaskInputDisabled(s.cycles, s.activeCycleId) <==> s.activeCycleId.Some?
    ensures MinutesInputDisabled(s.cycles, s.activeCycleId) <==> s.activeCycleId.Some?
  {
  }

  /** One `<option key={cycle.id} value={cycle.task}>` of the task datalist. */
  datatype Suggestion = Suggestion(key: Id, value: string)

  /** `cycles.map(...)`: one suggestion per history entry, in history order, duplicates kept. */
  function TaskSuggestions(cycles: seq<Cycle>): (r: seq<Suggestion>)
    ensures |r| == |cycles|
    ensures forall i :: 0 <= i < |r| ==> r[i] == Suggestion(cycles[i].id, cycles[i].task)
  {
    if cycles == [] then [] else [Suggestion(cycles[0].id, cycles[0].task)] + TaskSuggestions(cycles[1..])
  }

  /** With unique cycle ids, the datalist's keys are unique too. */
  lemma SuggestionKeysAreUnique(cycles: seq<Cycle>)
    requires UniqueIds(cycles)
    ensures var r := TaskSuggestions(cycles);
      forall i, j :: 0 <= i < j < |r| ==> r[i].key != r[j].key
  {
  }

  /** The minutes input's `min`, `max` and `step` attributes. */
  const MinutesFieldMin := 5
  const MinutesFieldMax := 60
  const MinutesFieldStep := 5

  /**
   * The input's bounds are the schema's, so every value its stepper offers
   * (5, 10, ..., 60) passes the schema's minutes checks.
   */
  lemma MinutesFieldMatchesSchema(k: nat)
    requires MinutesFieldMin + k * MinutesFieldStep <= MinutesFieldMax
    ensures MinutesFieldMin == Home.MinMinutes && MinutesFieldMax == Home.MaxMinutes
    ensures Home.MinutesIssues(Home.Finite(MinutesFieldMin + k * MinutesFieldStep)) == []
  {
  }
}
