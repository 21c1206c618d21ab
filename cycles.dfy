/**
 * The cycle record, the state the cycles reducer keeps (history and active id),
 * the lookup of the active cycle, and the reducer's transitions.
 */
module Cycles {
  import opened Wrappers

  /** A cycle id: the string crypto.randomUUID returns. */
  type Id = string

  /** A point in time in milliseconds since the epoch, as a JavaScript Date holds it. */
  type Millis = int

  /** What the new-cycle form hands to createNewCycle. */
  datatype CreateCycleData = CreateCycleData(task: string, minutesAmount: int)

  datatype Cycle = Cycle(
    id: Id,
    task: string,
    minutesAmount: int,
    startDate: Millis,
    interruptedDate: Option<Millis>,
    finishedDate: Option<Millis>)
  {
    /** A cycle that was interrupted or finished; it is never changed again. */
    predicate IsTerminal() {
      interruptedDate.Some? || finishedDate.Some?
    }
  }

  /** The state the reducer owns: the history, oldest first, and the active id (`null` is None). */
  datatype CyclesState = CyclesState(cycles: seq<Cycle>, activeCycleId: Option<Id>)

  /** The actions the context dispatches. */
  datatype Action =
    | CreateNewCycle(newCycle: Cycle)
    | InterruptCurrentCycle
    | MarkCurrentCycleAsFinished

  /** The state useReducer starts from. */
  const InitialState := CyclesState([], None)

  /**
   * The index of the first cycle whose id equals `id`, compared as `===` compares:
   * a null id (None) equals no cycle's id.
   */
  function FindIndex(cycles: seq<Cycle>, id: Option<Id>): (r: Option<nat>)
    ensures r.Some? ==> r.value < |cycles| && Some(cycles[r.value].id) == id
    ensures r.Some? ==> forall j :: 0 <= j < r.value ==> Some(cycles[j].id) != id
    ensures r.None? <==> forall j :: 0 <= j < |cycles| ==> Some(cycles[j].id) != id
  {
    if cycles == [] then None
    else if Some(cycles[0].id) == id then Some(0)
    else
      match FindIndex(cycles[1..], id)
      case None => None
      case Some(k) => Some(k + 1)
  }

  /** `cycles.find(cycle => cycle.id === id)`: the first cycle carrying `id`, if any. */
  function Find(cycles: seq<Cycle>, id: Option<Id>): (r: Option<Cycle>)
    ensures r.Some? <==> exists i :: 0 <= i < |cycles| && Some(cycles[i].id) == id
    ensures r.Some? ==> Some(r.value.id) == id && r.value in cycles
    ensures r.Some? ==> exists i :: 0 <= i < |cycles| && cycles[i] == r.value &&
                                     forall j :: 0 <= j < i ==> Some(cycles[j].id) != id
    ensures id.None? ==> r.None?
  {
    match FindIndex(cycles, id)
    case None => None
    case Some(k) => Some(cycles[k])
  }

  /** The active cycle of a state, as the context derives it. */
  function ActiveCycle(s: CyclesState): Option<Cycle> {
    Find(s.cycles, s.activeCycleId)
  }

  /** Marks the active cycle with `date` (interrupted or finished) and clears the active id. */
  function Stop(s: CyclesState, now: Millis, interrupted: bool): CyclesState {
    match FindIndex(s.cycles, s.activeCycleId)
    case None => s
    case Some(k) =>
      var c := s.cycles[k];
      var stopped := if interrupted then c.(interruptedDate := Some(now))
                     else c.(finishedDate := Some(now));
      CyclesState(s.cycles[k := stopped], None)
  }

  /**
   * The cycles reducer. Its file is not part of this model: these are the transitions
   * the context relies on. Create appends and activates; interrupt and finish stamp the
   * active cycle with the current time and clear the active id, or do nothing when no
   * cycle carries the active id.
   */
  function CyclesReducer(s: CyclesState, action: Action, now: Millis): CyclesState {
    match action
    case CreateNewCycle(c) => CyclesState(s.cycles + [c], Some(c.id))
    case InterruptCurrentCycle => Stop(s, now, true)
    case MarkCurrentCycleAsFinished => Stop(s, now, false)
  }

  predicate UniqueIds(cycles: seq<Cycle>) {
    forall i, j :: 0 <= i < j < |cycles| ==> cycles[i].id != cycles[j].id
  }

  /**
   * The history invariant: ids are unique, no cycle is both interrupted and finished,
   * and the active id, when set, names a cycle of the history that is not terminal.
   */
  predicate WellFormed(s: CyclesState) {
    && UniqueIds(s.cycles)
    && (forall i :: 0 <= i < |s.cycles| ==>
          !(s.cycles[i].interruptedDate.Some? && s.cycles[i].finishedDate.Some?))
    && (s.activeCycleId.Some? ==>
          exists i :: 0 <= i < |s.cycles| && Some(s.cycles[i].id) == s.activeCycleId &&
                      !s.cycles[i].IsTerminal())
  }

  /** WellFormed, and every cycle other than the active one is terminal. */
  predicate Settled(s: CyclesState) {
    && WellFormed(s)
    && forall i :: 0 <= i < |s.cycles| && Some(s.cycles[i].id) != s.activeCycleId ==>
         s.cycles[i].IsTerminal()
  }

  /** A cycle createNewCycle may add: its id is new and it carries no terminal date. */
  predicate Fresh(s: CyclesState, c: Cycle) {
    !c.IsTerminal() && forall i :: 0 <= i < |s.cycles| ==> s.cycles[i].id != c.id
  }

  /** The parts of a cycle fixed at creation. */
  predicate SameOrigin(a: Cycle, b: Cycle) {
    a.id == b.id && a.task == b.task && a.minutesAmount == b.minutesAmount &&
    a.startDate == b.startDate
  }

  lemma InitialStateSettled()
    ensures Settled(InitialState) && ActiveCycle(InitialState).None?
  {
  }

  /** Under WellFormed the active cycle is exactly the non-terminal one the active id names. */
  lemma ActiveCycleOfWellFormed(s: CyclesState)
    requires WellFormed(s)
    ensures s.activeCycleId.Some? <==> ActiveCycle(s).Some?
    ensures ActiveCycle(s).Some? ==> !ActiveCycle(s).value.IsTerminal() &&
                                     Some(ActiveCycle(s).value.id) == s.activeCycleId
  {
  }

  /**
   * Interrupt and finish clear the active id and stamp the active cycle (and nothing else)
   * with `now`; with no active cycle they change nothing.
   */
  lemma StopStampsActiveCycle(s: CyclesState, now: Millis, interrupted: bool)
    requires WellFormed(s)
    ensures var r := Stop(s, now, interrupted);
      && r.activeCycleId.None?
      && |r.cycles| == |s.cycles|
      && (ActiveCycle(s).None? ==> r == s)
      && forall i :: 0 <= i < |s.cycles| ==>
           if Some(s.cycles[i].id) == s.activeCycleId then
             r.cycles[i] == (if interrupted then s.cycles[i].(interruptedDate := Some(now))
                             else s.cycles[i].(finishedDate := Some(now)))
           else r.cycles[i] == s.cycles[i]
  {
  }

  /** Every transition keeps the history invariant (create needs a fresh cycle). */
  lemma ReducerPreservesWellFormed(s: CyclesState, action: Action, now: Millis)
    requires WellFormed(s)
    requires action.CreateNewCycle? ==> Fresh(s, action.newCycle)
    ensures WellFormed(CyclesReducer(s, action, now))
  {
    var r := CyclesReducer(s, action, now);
    match action
    case CreateNewCycle(c) =>
      assert r.cycles[|s.cycles|] == c;
    case InterruptCurrentCycle =>
      StopStampsActiveCycle(s, now, true);
      ActiveCycleOfWellFormed(s);
    case MarkCurrentCycleAsFinished =>
      StopStampsActiveCycle(s, now, false);
      ActiveCycleOfWellFormed(s);
  }

  /**
   * The history is append-only: every transition keeps the length or grows it by one,
   * keeps each entry's id, task, duration and start, and never touches a terminal entry.
   */
  lemma HistoryIsAppendOnly(s: CyclesState, action: Action, now: Millis)
    requires WellFormed(s)
    ensures var r := CyclesReducer(s, action, now);
      && |r.cycles| == |s.cycles| + (if action.CreateNewCycle? then 1 else 0)
      && forall i :: 0 <= i < |s.cycles| ==>
           SameOrigin(r.cycles[i], s.cycles[i]) &&
           (s.cycles[i].IsTerminal() ==> r.cycles[i] == s.cycles[i])
  {
  }

  /**
   * Every history entry other than the active one stays terminal through interrupt and
   * finish, and through a create issued while no cycle is active.
   */
  lemma ReducerPreservesSettled(s: CyclesState, action: Action, now: Millis)
    requires Settled(s)
    requires action.CreateNewCycle? ==> Fresh(s, action.newCycle) && s.activeCycleId.None?
    ensures Settled(CyclesReducer(s, action, now))
  {
    ReducerPreservesWellFormed(s, action, now);
    var r := CyclesReducer(s, action, now);
    match action
    case CreateNewCycle(c) =>
      assert r.cycles[|s.cycles|] == c;
    case InterruptCurrentCycle =>
      StopStampsActiveCycle(s, now, true);
    case MarkCurrentCycleAsFinished =>
      StopStampsActiveCycle(s, now, false);
  }

  /**
   * A create issued while a cycle is active leaves that cycle in the history with no
   * terminal date and no longer active: the history is then not Settled.
   */
  lemma CreateWhileActiveAbandonsCycle(s: CyclesState, c: Cycle, now: Millis)
    requires WellFormed(s) && Fresh(s, c) && s.activeCycleId.Some?
    ensures var r := CyclesReducer(s, CreateNewCycle(c), now);
      WellFormed(r) && !Settled(r)
  {
    ReducerPreservesWellFormed(s, CreateNewCycle(c), now);
    var r := CyclesReducer(s, CreateNewCycle(c), now);
    var i :| 0 <= i < |s.cycles| && Some(s.cycles[i].id) == s.activeCycleId &&
             !s.cycles[i].IsTerminal();
    assert r.cycles[i] == s.cycles[i];
    assert Some(r.cycles[i].id) != r.activeCycleId;
  }

  /**
   * Interrupting (or finishing) a second time, once no cycle is active, changes nothing.
   */
  lemma StopTwiceIsStopOnce(s: CyclesState, a1: Action, a2: Action, t1: Millis, t2: Millis)
    requires !a1.CreateNewCycle? && !a2.CreateNewCycle?
    ensures var r := CyclesReducer(s, a1, t1);
      CyclesReducer(r, a2, t2) == r
  {
  }
}
