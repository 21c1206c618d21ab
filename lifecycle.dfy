/**
 * How the context and the countdown work together: each store update is followed by the
 * countdown's effect, since the context hands out new callbacks on every update and so
 * changes the effect's dependencies.
 */
module Lifecycle {
  import opened Wrappers
  import opened Cycles
  import opened Countdown

  /**
   * createNewCycle while no cycle is active, then the effect: the new cycle is active
   * with nothing counted, and the only live interval is armed for it.
   */
  method StartCycle(countdown: Countdown, data: CreateCycleData, id: Id, now: Millis)
    requires countdown.Valid() && Settled(countdown.store.State())
    requires countdown.store.activeCycleId.None?
    requires forall i :: 0 <= i < |countdown.store.cycles| ==> countdown.store.cycles[i].id != id
    modifies countdown, countdown.store
    ensures var c := Cycle(id, data.task, data.minutesAmount, now, None, None);
      && countdown.store.cycles == old(countdown.store.cycles) + [c]
      && countdown.store.ActiveCycle() == Some(c)
      && countdown.store.amountSecondsPassed == 0
      && |countdown.timers| == 1 && countdown.timers[0].cycle == c
      && countdown.timers[0].totalSeconds == data.minutesAmount * 60
    ensures Settled(countdown.store.State()) && countdown.Valid() && countdown.Synced()
  {
    countdown.store.CreateNewCycle(data, id, now);
    countdown.RunEffect();
  }

  /**
   * One tick, then the effect its `setSecondsPassed` re-runs: a tick that does not finish
   * leaves one re-armed interval for the same cycle and total, so the next tick of the
   * new interval takes the same decision the old one would have; a finishing tick leaves
   * none. Chained, these ticks are one run of `RunTicks`.
   */
  method TickThenEffect(countdown: Countdown, now: Millis) returns (finished: bool)
    requires countdown.Valid() && countdown.Synced() && countdown.timers != []
    modifies countdown, countdown.store
    ensures countdown.Valid() && countdown.Synced()
    ensures var t := old(countdown.timers[0]);
      var r := TickResult(t.cycle.startDate, t.totalSeconds, now);
      && finished == r.Finish?
      && countdown.store.amountSecondsPassed == r.secondsPassed
      && (finished ==> countdown.timers == [])
      && (!finished ==> |countdown.timers| == 1 && countdown.timers[0].cycle == t.cycle &&
                        countdown.timers[0].totalSeconds == t.totalSeconds)
  {
    finished := countdown.Tick(now);
    countdown.RunEffect();
  }

  /**
   * The interval fires at the times `nows`, each tick followed by the effect that re-arms
   * it: the chain of re-armed intervals ends exactly as the single interval of `RunTicks`
   * would, with the same seconds passed and the same number of finish calls, and a live
   * interval is left exactly when that run is still live.
   */
  method TicksThenEffects(countdown: Countdown, nows: seq<Millis>) returns (run: IntervalRun)
    requires countdown.Valid() && countdown.Synced() && countdown.timers != []
    modifies countdown, countdown.store
    ensures countdown.Valid() && countdown.Synced()
    ensures var t := old(countdown.timers[0]);
      run == RunTicks(t.cycle.startDate, t.totalSeconds, nows,
                      IntervalRun(old(countdown.store.amountSecondsPassed), 0, true))
    ensures countdown.store.amountSecondsPassed == run.secondsPassed
    ensures run.live <==> countdown.timers != []
  {
    var t := countdown.timers[0];
    var start := IntervalRun(countdown.store.amountSecondsPassed, 0, true);
    run := start;
    var k := 0;
    while k < |nows| && run.live
      invariant 0 <= k <= |nows|
      invariant countdown.Valid() && countdown.Synced()
      invariant RunTicks(t.cycle.startDate, t.totalSeconds, nows[k..], run) ==
                RunTicks(t.cycle.startDate, t.totalSeconds, nows, start)
      invariant countdown.store.amountSecondsPassed == run.secondsPassed
      invariant run.live ==> |countdown.timers| == 1 && countdown.timers[0].cycle == t.cycle &&
                             countdown.timers[0].totalSeconds == t.totalSeconds
      invariant !run.live ==> countdown.timers == []
      decreases |nows| - k
    {
      assert nows[k..][1..] == nows[k + 1..];
      var finished := TickThenEffect(countdown, nows[k]);
      run := IntervalRun(countdown.store.amountSecondsPassed,
                         if finished then run.finishCalls + 1 else run.finishCalls, !finished);
      k := k + 1;
    }
  }

  /**
   * interruptCurrentCycle, then the effect: the active cycle is stamped interrupted,
   * nothing is active and no interval is live.
   */
  method StopCycle(countdown: Countdown, now: Millis)
    requires countdown.Valid() && Settled(countdown.store.State())
    modifies countdown, countdown.store
    ensures countdown.store.State() ==
      CyclesReducer(old(countdown.store.State()), Action.InterruptCurrentCycle, now)
    ensures countdown.store.ActiveCycle().None? && countdown.timers == []
    ensures Settled(countdown.store.State()) && countdown.Valid() && countdown.Synced()
  {
    countdown.store.InterruptCurrentCycle(now);
    countdown.RunEffect();
  }

  /**
   * Start cycle A, interrupt it, start cycle B. A stays in the history interrupted, B is
   * active with nothing counted, every other entry is terminal, and the only live
   * interval is the one armed for B: nothing left over from A can tick.
   */
  method StartInterruptStart(countdown: Countdown, a: CreateCycleData, idA: Id,
                             b: CreateCycleData, idB: Id, t0: Millis, t1: Millis, t2: Millis)
    requires countdown.Valid() && Settled(countdown.store.State())
    requires countdown.store.activeCycleId.None?
    requires idA != idB
    requires forall i :: 0 <= i < |countdown.store.cycles| ==>
               countdown.store.cycles[i].id != idA && countdown.store.cycles[i].id != idB
    modifies countdown, countdown.store
    ensures var cycleB := Cycle(idB, b.task, b.minutesAmount, t2, None, None);
      && countdown.store.cycles == old(countdown.store.cycles) +
           [Cycle(idA, a.task, a.minutesAmount, t0, Some(t1), None), cycleB]
      && countdown.store.ActiveCycle() == Some(cycleB)
      && countdown.store.amountSecondsPassed == 0
      && |countdown.timers| == 1 && countdown.timers[0].cycle == cycleB
    ensures Settled(countdown.store.State()) && countdown.Valid() && countdown.Synced()
  {
    ghost var history := countdown.store.cycles;
    var cycleA := Cycle(idA, a.task, a.minutesAmount, t0, None, None);
    StartCycle(countdown, a, idA, t0);
    assert countdown.store.cycles == history + [cycleA];
    StopCycle(countdown, t1);
    assert countdown.store.cycles == history + [cycleA.(interruptedDate := Some(t1))] by {
      StopStampsActiveCycle(CyclesState(history + [cycleA], Some(idA)), t1, true);
    }
    StartCycle(countdown, b, idB, t2);
  }
}
