/**
 * The countdown driver: the effect that arms a one-second interval for the active cycle,
 * the interval's tick, which recomputes the seconds passed from the wall clock and
 * finishes the cycle once its duration is reached, and the effect's cleanup.
 */
module Countdown {
  import opened Wrappers
  import opened Cycles
  import opened CyclesContext
  import opened CountdownDisplay

  /**
   * date-fns `differenceInSeconds(later, earlier)`: the whole seconds between two dates,
   * truncated toward zero.
   */
  function DifferenceInSeconds(later: Millis, earlier: Millis): (r: int)
    ensures later >= earlier ==> 0 <= r && r * 1000 <= later - earlier < r * 1000 + 1000
    ensures later < earlier ==> r <= 0 && r * 1000 - 1000 < later - earlier <= r * 1000
  {
    var d := later - earlier;
    if d >= 0 then d / 1000 else -((-d) / 1000)
  }

  /** What one tick does: keep counting with the seconds passed, or finish with them clamped. */
  datatype TickOutcome = Continue(secondsPassed: int) | Finish(secondsPassed: int)

  /** The tick of an interval armed for a cycle started at `startDate` lasting `totalSeconds`. */
  function TickResult(startDate: Millis, totalSeconds: int, now: Millis): (r: TickOutcome)
    ensures r.Finish? <==> DifferenceInSeconds(now, startDate) >= totalSeconds
    ensures r.secondsPassed <= totalSeconds
    ensures r.Finish? ==> r.secondsPassed == totalSeconds
    ensures r.Continue? ==> r.secondsPassed == DifferenceInSeconds(now, startDate)
  {
    var secondsDifference := DifferenceInSeconds(now, startDate);
    if secondsDifference >= totalSeconds then Finish(totalSeconds) else Continue(secondsDifference)
  }

  /**
   * A tick finishes exactly when a whole `totalSeconds` have elapsed since the start, and
   * with a clock that has not gone back past the start it leaves the seconds passed
   * within 0..totalSeconds: exactly totalSeconds when it finishes, the elapsed whole
   * seconds otherwise.
   */
  lemma TickIsClamped(startDate: Millis, totalSeconds: int, now: Millis)
    requires now >= startDate && totalSeconds >= 0
    ensures var r := TickResult(startDate, totalSeconds, now);
      && (r.Finish? <==> now - startDate >= totalSeconds * 1000)
      && 0 <= r.secondsPassed <= totalSeconds
      && (r.Finish? ==> r.secondsPassed == totalSeconds)
      && (r.Continue? ==> r.secondsPassed * 1000 <= now - startDate < r.secondsPassed * 1000 + 1000)
  {
  }

  /**
   * A five-minute cycle: 299 seconds in, the tick keeps counting and one second is shown
   * left; at 300 seconds, or later, the tick finishes with exactly 300 seconds passed.
   */
  lemma FiveMinuteCycleTicks(c: Cycle)
    requires c.minutesAmount == 5
    ensures TickResult(c.startDate, TotalSeconds(Some(c)), c.startDate + 299_000) == Continue(299)
    ensures Display(CurrentSeconds(Some(c), 299)) == "00:01"
    ensures TickResult(c.startDate, TotalSeconds(Some(c)), c.startDate + 300_000) == Finish(300)
    ensures TickResult(c.startDate, TotalSeconds(Some(c)), c.startDate + 301_500) == Finish(300)
  {
    DisplayOfLastSeconds();
  }

  /** The state of one interval after a run of ticks. */
  datatype IntervalRun = IntervalRun(secondsPassed: int, finishCalls: nat, live: bool)

  /**
   * The interval fired at the times `nows`, in order: each tick applies TickResult; the
   * tick that finishes clears the interval, so no later tick of it runs.
   */
  function RunTicks(startDate: Millis, totalSeconds: int, nows: seq<Millis>, run: IntervalRun): (r: IntervalRun)
    ensures !run.live || nows == [] ==> r == run
    ensures r.finishCalls >= run.finishCalls
    ensures r.live ==> r.finishCalls == run.finishCalls
    decreases |nows|
  {
    if nows == [] || !run.live then run
    else
      match TickResult(startDate, totalSeconds, nows[0])
      case Continue(p) => RunTicks(startDate, totalSeconds, nows[1..], IntervalRun(p, run.finishCalls, true))
      case Finish(p) => IntervalRun(p, run.finishCalls + 1, false)
  }

  /**
   * Whatever the tick times, an interval calls finish at most once; it does so exactly
   * when some tick sees the full duration elapsed, and then leaves the seconds passed at
   * exactly the total and the interval cleared.
   */
  lemma {:induction false} FinishCalledAtMostOnce(startDate: Millis, totalSeconds: int, nows: seq<Millis>, calls: nat, passed: int)
    ensures var r := RunTicks(startDate, totalSeconds, nows, IntervalRun(passed, calls, true));
      && calls <= r.finishCalls <= calls + 1
      && (r.finishCalls == calls + 1 <==>
            exists i :: 0 <= i < |nows| && DifferenceInSeconds(nows[i], startDate) >= totalSeconds)
      && (r.finishCalls == calls + 1 <==> !r.live)
      && (!r.live ==> r.secondsPassed == totalSeconds)
    decreases |nows|
  {
    if nows != [] {
      match TickResult(startDate, totalSeconds, nows[0])
      case Continue(p) =>
        FinishCalledAtMostOnce(startDate, totalSeconds, nows[1..], calls, p);
        assert forall i :: 1 <= i < |nows| ==> nows[i] == nows[1..][i - 1];
      case Finish(p) =>
    }
  }

  /**
   * No drift: while the interval is live, the seconds passed after any run of ticks are
   * what a single tick at the last time gives, however many ticks ran or were dropped
   * before it.
   */
  lemma {:induction false} SecondsPassedIgnoreEarlierTicks(startDate: Millis, totalSeconds: int, nows: seq<Millis>, now: Millis, run: IntervalRun)
    requires run.live
    requires RunTicks(startDate, totalSeconds, nows, run).live
    ensures RunTicks(startDate, totalSeconds, nows + [now], run).secondsPassed ==
            TickResult(startDate, totalSeconds, now).secondsPassed
    ensures RunTicks(startDate, totalSeconds, nows + [now], run) ==
            RunTicks(startDate, totalSeconds, [now], RunTicks(startDate, totalSeconds, nows, run))
    decreases |nows|
  {
    if nows != [] {
      assert (nows + [now])[1..] == nows[1..] + [now];
      match TickResult(startDate, totalSeconds, nows[0])
      case Continue(p) =>
        SecondsPassedIgnoreEarlierTicks(startDate, totalSeconds, nows[1..], now,
                                        IntervalRun(p, run.finishCalls, true));
      case Finish(p) =>
    }
  }

  /**
   * With tick times not before the start, the seconds passed stay within
   * 0..totalSeconds whatever the run of ticks.
   */
  lemma {:induction false} SecondsPassedStayInRange(startDate: Millis, totalSeconds: int, nows: seq<Millis>, run: IntervalRun)
    requires totalSeconds >= 0 && 0 <= run.secondsPassed <= totalSeconds
    requires forall i :: 0 <= i < |nows| ==> nows[i] >= startDate
    ensures 0 <= RunTicks(startDate, totalSeconds, nows, run).secondsPassed <= totalSeconds
    decreases |nows|
  {
    if nows != [] && run.live {
      TickIsClamped(startDate, totalSeconds, nows[0]);
      var p := TickResult(startDate, totalSeconds, nows[0]).secondsPassed;
      SecondsPassedStayInRange(startDate, totalSeconds, nows[1..], IntervalRun(p, run.finishCalls, true));
    }
  }

  /** A live interval: its browser handle, and the cycle and total its callback captured. */
  datatype Timer = Timer(handle: nat, cycle: Cycle, totalSeconds: int)

  /**
   * The live intervals once the one with `handle` is cleared: the others, in order.
   * Clearing the handle every live interval carries leaves none.
   */
  function WithoutHandle(timers: seq<Timer>, handle: Option<nat>): (r: seq<Timer>)
    ensures forall i :: 0 <= i < |r| ==> Some(r[i].handle) != handle && r[i] in timers
    ensures forall i :: 0 <= i < |timers| && Some(timers[i].handle) != handle ==> timers[i] in r
    ensures (forall i :: 0 <= i < |timers| ==> Some(timers[i].handle) == handle) ==> r == []
  {
    if timers == [] then []
    else (if Some(timers[0].handle) == handle then [] else [timers[0]]) + WithoutHandle(timers[1..], handle)
  }

  class Countdown {
    /** The cycles context the component reads. */
    const store: CycleStore
    /** The intervals the browser holds live. */
    var timers: seq<Timer>
    /** The handle the last effect run armed, which its cleanup clears. */
    var interval: Option<nat>
    /** The handle setInterval returns next. */
    var nextHandle: nat

    /**
     * The store's invariant, and every live interval is the one the last effect run
     * armed (handles are distinct), so the next cleanup clears all of them.
     */
    ghost predicate Valid()
      reads this, store
    {
      && store.Valid()
      && (forall i :: 0 <= i < |timers| ==> Some(timers[i].handle) == interval)
      && (forall i, j :: 0 <= i < j < |timers| ==> timers[i].handle != timers[j].handle)
    }

    /** The live intervals match the store: one for the active cycle, none without one. */
    ghost predicate Synced()
      reads this, store
    {
      var active := store.ActiveCycle();
      && (active.None? ==> timers == [])
      && (active.Some? ==> |timers| == 1 && timers[0].cycle == active.value &&
                           timers[0].totalSeconds == TotalSeconds(active))
    }

    constructor (store: CycleStore)
      requires store.Valid()
      ensures this.store == store && timers == [] && interval == None
      ensures Valid() && (store.ActiveCycle().None? ==> Synced())
    {
      this.store := store;
      timers := [];
      interval := None;
      nextHandle := 1;
    }

    /** The text the countdown renders. */
    function View(): (r: string)
      reads this, store
      ensures |r| == 5 && r[2] == ':'
      ensures store.ActiveCycle().None? ==> r == "00:00"
      ensures var active := store.ActiveCycle();
        active.Some? && active.value.minutesAmount < 100 &&
        0 <= store.amountSecondsPassed <= TotalSeconds(active) ==>
          ReadClock(r) == TotalSeconds(active) - store.amountSecondsPassed
    {
      var current := CurrentSeconds(store.ActiveCycle(), store.amountSecondsPassed);
      DisplayOfLastSeconds();
      if 0 <= current < 6000 then DisplayReadsBack(current); Display(current) else Display(current)
    }

    /** setInterval: registers a live interval under a new handle. */
    method SetInterval(cycle: Cycle, totalSeconds: int) returns (handle: nat)
      modifies this`timers, this`nextHandle
      ensures handle == old(nextHandle) && nextHandle == handle + 1
      ensures timers == old(timers) + [Timer(handle, cycle, totalSeconds)]
    {
      handle := nextHandle;
      nextHandle := nextHandle + 1;
      timers := timers + [Timer(handle, cycle, totalSeconds)];
    }

    /** clearInterval: removes the interval with that handle; an undefined handle does nothing. */
    method ClearInterval(handle: Option<nat>)
      modifies this`timers
      ensures timers == WithoutHandle(old(timers), handle)
    {
      timers := WithoutHandle(timers, handle);
    }

    /**
     * The effect, run whenever its dependencies change: the previous run's cleanup
     * clears its interval, then an interval is armed for the active cycle, if any.
     * Afterwards exactly the active cycle's interval is live.
     */
    method RunEffect()
      requires Valid()
      modifies this`timers, this`nextHandle, this`interval
      ensures Valid() && Synced()
      ensures var active := store.ActiveCycle();
        && timers == (if active.Some? then [Timer(old(nextHandle), active.value, TotalSeconds(active))] else [])
        && interval == (if active.Some? then Some(old(nextHandle)) else None)
    {
      ClearInterval(interval);
      var active := store.ActiveCycle();
      var totalSeconds := TotalSeconds(active);
      if active.Some? {
        var handle := SetInterval(active.value, totalSeconds);
        interval := Some(handle);
      } else {
        interval := None;
      }
    }

    /**
     * The live interval fires at time `now`. Once a whole duration has elapsed it calls
     * finish, sets the seconds passed to exactly the total and clears itself; before
     * that it sets the seconds passed to the elapsed whole seconds and calls nothing.
     */
    method Tick(now: Millis) returns (finished: bool)
      requires Valid() && timers != []
      modifies this`timers, store
      ensures Valid()
      ensures var t := old(timers[0]);
        var outcome := TickResult(t.cycle.startDate, t.totalSeconds, now);
        && finished == outcome.Finish?
        && store.amountSecondsPassed == outcome.secondsPassed
      ensures finished ==>
        && store.dispatched == old(store.dispatched) + [Action.MarkCurrentCycleAsFinished]
        && store.State() == CyclesReducer(old(store.State()), Action.MarkCurrentCycleAsFinished, now)
        && timers == []
      ensures !finished ==>
        store.dispatched == old(store.dispatched) && store.State() == old(store.State()) &&
        timers == old(timers)
      ensures old(Synced()) ==> Synced()
      ensures old(Synced()) && finished ==> View() == "00:00"
    {
      var t := timers[0];
      var secondsDifference := DifferenceInSeconds(now, t.cycle.startDate);
      if secondsDifference >= t.totalSeconds {
        store.MarkCurrentCycleAsFinished(now);
        store.SetSecondsPassed(t.totalSeconds);
        ClearInterval(Some(t.handle));
        assert timers == [];
        assert store.ActiveCycle().None?;
        DisplayOfLastSeconds();
        finished := true;
      } else {
        ghost var active := store.ActiveCycle();
        store.SetSecondsPassed(secondsDifference);
        assert store.ActiveCycle() == active;
        finished := false;
      }
    }
  }

  /** However the effect and the ticks interleave, at most one interval is live. */
  lemma AtMostOneLiveInterval(c: Countdown)
    requires c.Valid()
    ensures |c.timers| <= 1
  {
    if |c.timers| >= 2 {
      FirstTwoHandlesDiffer(c.timers);
      assert false;
    }
  }

  lemma FirstTwoHandlesDiffer(timers: seq<Timer>)
    requires |timers| >= 2
    requires forall i, j :: 0 <= i < j < |timers| ==> timers[i].handle != timers[j].handle
    ensures timers[0].handle != timers[1].handle
  {
  }
}
