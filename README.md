# Ignite Timer: cycle lifecycle and countdown

A model of the pomodoro timer's core: the cycles context, which holds the history of
cycles, the active cycle's id and the seconds-passed counter; the countdown, which arms
a one-second interval for the active cycle, recomputes the seconds passed from the wall
clock on every tick and finishes the cycle when its duration is reached; the countdown's
"MM:SS" display; the new-cycle form's validation schema, submit rule and reset; and the
form component's disabled rule and task suggestions.

Modules follow the source files. The countdown component is split in two: its pure
display (`CountdownDisplay`) and its effect and interval (`Countdown`). `Wrappers` is
shared, and `Lifecycle` composes the context with the countdown:

- `Wrappers` (`wrappers.dfy`): `Option` for `null`/`undefined`, `Result` for validation.
- `Cycles` (`cycles.dfy`): the cycle record, the reducer state, the `find`/`findIndex`
  lookup by id, and the reducer's transitions (`CyclesReducer`). The reducer's own file
  (`src/reducers/cycles/reducer`) is not part of this model: its transitions are taken as
  the context uses them. Create appends the cycle and makes it active. Interrupt and
  finish look up the active cycle with `findIndex`. If none matches they change nothing.
  Otherwise they stamp that cycle with the current time and clear the active id.
- `CyclesContext` (`cycles_context.dfy`): class `CycleStore`, the context provider's
  state. `dispatch` is a method that applies the reducer and logs the action in a ghost
  field, so "dispatches exactly one action" is stated outright.
- `CountdownDisplay` (`countdown_display.dfy`): `totalSeconds`, `currentSeconds`, the
  floor/remainder split, `String(...)`, `padStart` and the five rendered characters.
- `Countdown` (`countdown.dfy`): date-fns `differenceInSeconds`, the tick as a function
  (`TickResult`), a run of ticks (`RunTicks`) with its lemmas, and class `Countdown`. The
  class keeps the browser's live intervals (`timers`), the handle the last effect armed
  (`interval`), the effect (`RunEffect`, cleanup included) and the interval callback (`Tick`).
- `Home` (`home.dfy`): the zod schema as `Validate`, `isSubmitDisabled`, and class
  `NewCycleFormState` with `handleSubmit` and the reset to the default values.
- `NewCycleForm` (`new_cycle_form.dfy`): the disabled rule and the datalist projection.
- `Lifecycle` (`lifecycle.dfy`): starting and interrupting a cycle and each tick, every one
  followed by the effect re-run, a chain of ticks, and the start, interrupt, start sequence.

Time is an integer number of milliseconds (a JavaScript `Date`). A tick is an event
carrying its time `now`. The context creates `markCurrentCycleAsFinished` and
`setSecondsPassed` anew on every render, so the countdown effect's dependency list changes
after every store update. The model therefore re-runs the effect (`RunEffect`) after each
store update, and the interval is cleared and re-armed each time. That includes the
`setSecondsPassed` of every tick, so an interval rarely fires twice: each tick re-arms a
new one. Each re-arm captures the same cycle and total, and `Lifecycle.TicksThenEffects`
proves that this chain of intervals ends as the single interval of `RunTicks` would.

Choices the source makes that a reader might not expect:

- The task suggestions are not de-duplicated: one option per history cycle.
- `createNewCycle` (src/contexts/CyclesContext/index.tsx:46-57) does not validate its
  input and does not check for an active cycle. `Cycles.CreateWhileActiveAbandonsCycle`
  shows what a create issued while a cycle is active leaves behind.

## Model

| member | source | states |
|---|---|---|
| `Cycles.FindIndex` | src/contexts/CyclesContext/index.tsx:44 | the index of the first cycle whose id equals the given id; none exactly when no cycle has it, so a null id finds nothing |
| `Cycles.Find` | src/contexts/CyclesContext/index.tsx:44 | `activeCycle`: present iff some history entry carries the id; then it is a history entry with that id and no earlier entry has it; absent for a null id |
| `Cycles.ActiveCycleOfWellFormed` | src/contexts/CyclesContext/index.tsx:44 | under the history invariant the active cycle exists iff the active id is set, and it is not terminal |
| `Cycles.InitialStateSettled` | src/contexts/CyclesContext/index.tsx:34-37 | the reducer's initial state (empty history, null id) satisfies the invariant and has no active cycle |
| `Cycles.StopStampsActiveCycle` | src/contexts/CyclesContext/index.tsx:59-66 | interrupt/finish (assumed reducer) clear the active id and stamp only the active cycle with `now` (interrupted or finished date); with no active cycle the state is unchanged |
| `Cycles.ReducerPreservesWellFormed` | src/contexts/CyclesContext/index.tsx:46-66 | create (with a fresh id), interrupt and finish keep ids unique, never set both terminal dates, and keep the active id on a non-terminal cycle |
| `Cycles.HistoryIsAppendOnly` | src/contexts/CyclesContext/index.tsx:54-65 | the history grows by exactly one on create and keeps its length otherwise; every entry keeps id, task, duration and start; a terminal entry never changes |
| `Cycles.ReducerPreservesSettled` | src/contexts/CyclesContext/index.tsx:54-65 | "every entry but the active one is terminal" survives interrupt, finish, and a create issued while nothing is active |
| `Cycles.CreateWhileActiveAbandonsCycle` | src/contexts/CyclesContext/index.tsx:46-57 | a create issued while a cycle is active leaves that cycle unfinished and inactive, so the history is no longer settled |
| `Cycles.StopTwiceIsStopOnce` | src/contexts/CyclesContext/index.tsx:59-66 | a second interrupt or finish right after one changes nothing |
| `CyclesContext.CycleStore.constructor` | src/contexts/CyclesContext/index.tsx:34-42 | empty history, null active id, seconds passed 0, nothing dispatched |
| `CyclesContext.CycleStore.ActiveCycle` | src/contexts/CyclesContext/index.tsx:44 | the active cycle is a history entry carrying the active id |
| `CyclesContext.CycleStore.Dispatch` | src/contexts/CyclesContext/index.tsx:34 | the new state is the reducer applied to the old one; the action is logged once; the counter is untouched |
| `CyclesContext.CycleStore.CreateNewCycle` | src/contexts/CyclesContext/index.tsx:46-57 | builds the cycle with the input's task and minutes, the fresh id, start `now` and no terminal dates. It dispatches exactly one create action carrying it, appends it and makes it the active cycle. The counter resets to 0 and the invariant is kept |
| `CyclesContext.CycleStore.InterruptCurrentCycle` | src/contexts/CyclesContext/index.tsx:59-62 | one interrupt action is dispatched. The active cycle, and only it, gets `interruptedDate = now`. No cycle is active afterwards and the counter is unchanged |
| `CyclesContext.CycleStore.MarkCurrentCycleAsFinished` | src/contexts/CyclesContext/index.tsx:64-66 | one finish action is dispatched. The active cycle, and only it, gets `finishedDate = now`. No cycle is active afterwards and the counter is unchanged |
| `CyclesContext.CycleStore.Stop` | src/contexts/CyclesContext/index.tsx:59-66 | the shared body of interrupt and finish, with the same guarantees |
| `CyclesContext.CycleStore.SetSecondsPassed` | src/contexts/CyclesContext/index.tsx:68-70 | stores exactly the given seconds; its frame is that one field |
| `CountdownDisplay.TotalSeconds` | src/pages/Home/components/Countdown/index.tsx:16 | 0 with no active cycle; otherwise a multiple of 60 whose quotient by 60 is the cycle's minutes |
| `CountdownDisplay.CurrentSeconds` | src/pages/Home/components/Countdown/index.tsx:52 | 0 with no active cycle; remaining plus passed is the total; passed within 0..total gives remaining within 0..total |
| `CountdownDisplay.MinutesAmount` | src/pages/Home/components/Countdown/index.tsx:56 | `Math.floor(x / 60)`: the r with 60r <= x < 60r + 60 |
| `CountdownDisplay.SecondsAmount` | src/pages/Home/components/Countdown/index.tsx:58 | JavaScript `%`: in 0..59 and equal to x minus 60 times the minutes for x >= 0, in -59..0 for negative x; in both cases x minus the result is a multiple of 60, which fixes the value |
| `CountdownDisplay.SplitRemaining` | src/pages/Home/components/Countdown/index.tsx:56-58 | for remaining >= 0: minutes*60 + seconds = remaining, 0 <= seconds < 60 |
| `CountdownDisplay.NatToString` | src/pages/Home/components/Countdown/index.tsx:64-65 | `String(n)` of a non-negative number is a non-empty string of decimal digits with no leading zero (only 0 itself starts with '0') |
| `CountdownDisplay.NatToStringRoundTrip` | src/pages/Home/components/Countdown/index.tsx:64-65 | reading the digits of `String(n)` back gives n |
| `CountdownDisplay.PadStart` | src/pages/Home/components/Countdown/index.tsx:64-65 | `padStart`: the length is the larger of the target and the input; fill characters come first, then the input unchanged |
| `CountdownDisplay.Repeat` | src/pages/Home/components/Countdown/index.tsx:64-65 | the fill run `padStart` prepends: n copies of the fill character |
| `CountdownDisplay.IntToString` | src/pages/Home/components/Countdown/index.tsx:64-65 | `String(n)`: a leading '-' exactly for a negative n, then decimal digits with no leading zero that read back as the absolute value |
| `CountdownDisplay.TwoDigits` | src/pages/Home/components/Countdown/index.tsx:64-65 | the padded string has at least two characters, so `minutes[0]`, `minutes[1]` exist |
| `CountdownDisplay.TwoDigitsOfSmall` | src/pages/Home/components/Countdown/index.tsx:64-65 | for 0..99 the padded string is exactly the tens digit then the units digit |
| `CountdownDisplay.TwoDigitsReadBack` | src/pages/Home/components/Countdown/index.tsx:64-65 | for 0..99 the padded string has length 2, two digit characters, and reads back as the number |
| `CountdownDisplay.Display` | src/pages/Home/components/Countdown/index.tsx:74-82 | the rendered countdown is five characters with ':' in the middle |
| `CountdownDisplay.DisplayReadsBack` | src/pages/Home/components/Countdown/index.tsx:56-80 | for remaining in 0..5999 the four shown characters are digits, the seconds part is below 60, and "MM:SS" reads back as the remaining seconds |
| `CountdownDisplay.DisplayOfLastSeconds` | src/pages/Home/components/Countdown/index.tsx:76-80 | 0 seconds left shows "00:00"; 1 second left shows "00:01" |
| `Countdown.DifferenceInSeconds` | src/pages/Home/components/Countdown/index.tsx:23-25 | whole seconds between the dates, truncated toward zero, non-negative when the clock is past the start |
| `Countdown.FiveMinuteCycleTicks` | src/pages/Home/components/Countdown/index.tsx:16-35 | for a 5-minute cycle a tick at 299 s keeps counting and "00:01" is shown; ticks at 300 s and 301.5 s finish with exactly 300 s passed |
| `Countdown.TickResult` | src/pages/Home/components/Countdown/index.tsx:23-35 | the interval callback's decision: finish iff the whole seconds elapsed reach the total, then with exactly the total; otherwise keep counting with the elapsed whole seconds, which are below the total |
| `Countdown.RunTicks` | src/pages/Home/components/Countdown/index.tsx:22-36 | the ticks of one interval, or of the chain of intervals the effect re-arms for the same cycle and total (`Lifecycle.TicksThenEffects`), until a tick clears it: a cleared interval or no tick changes nothing, finish calls never decrease, and while live no finish has been called |
| `Countdown.TickIsClamped` | src/pages/Home/components/Countdown/index.tsx:27-35 | a tick finishes iff the full duration has elapsed. It then sets exactly the total; otherwise it sets the elapsed whole seconds. With the clock past the start, passed stays within 0..total |
| `Countdown.FinishCalledAtMostOnce` | src/pages/Home/components/Countdown/index.tsx:27-32 | over any run of ticks, finish is called at most once. It is called exactly when some tick sees the duration elapsed, and the interval is then cleared with the counter at the total |
| `Countdown.SecondsPassedIgnoreEarlierTicks` | src/pages/Home/components/Countdown/index.tsx:22-35 | no drift: while live, the counter after any run of ticks equals a single tick at the last time, however many ticks ran or were dropped before |
| `Countdown.SecondsPassedStayInRange` | src/pages/Home/components/Countdown/index.tsx:27-35 | with tick times not before the start, the counter stays within 0..total over any run |
| `Countdown.WithoutHandle` | src/pages/Home/components/Countdown/index.tsx:40-42 | clearing a handle removes exactly the intervals with that handle and keeps the rest; clearing the one handle all carry leaves none |
| `Countdown.Countdown.constructor` | src/pages/Home/components/Countdown/index.tsx:6-19 | the mounted component reads the given context and holds no live interval |
| `Countdown.Countdown.View` | src/pages/Home/components/Countdown/index.tsx:52-82 | the rendered text: five characters with ':' in the middle; "00:00" with no active cycle; with an active cycle under 100 minutes and the counter within 0..total, it reads back as the remaining seconds |
| `Countdown.Countdown.SetInterval` | src/pages/Home/components/Countdown/index.tsx:22 | registers one more live interval under a new handle |
| `Countdown.Countdown.ClearInterval` | src/pages/Home/components/Countdown/index.tsx:40-42 | the live intervals lose the one with that handle |
| `Countdown.Countdown.RunEffect` | src/pages/Home/components/Countdown/index.tsx:18-49 | the cleanup clears the previous interval before anything is armed. Afterwards exactly one interval is live, for the active cycle and its total, or none when no cycle is active |
| `Countdown.Countdown.Tick` | src/pages/Home/components/Countdown/index.tsx:22-36 | the counter becomes the tick's result for the captured cycle. On finishing it dispatches exactly one finish action and clears its own interval, so no live interval is left. Otherwise nothing but the counter changes. If the intervals matched the store before, they still do, and a finishing tick leaves the display at "00:00" |
| `Countdown.AtMostOneLiveInterval` | src/pages/Home/components/Countdown/index.tsx:39-42 | under the countdown invariant at most one interval is live |
| `Home.TaskIssues` | src/pages/Home/index.tsx:17 | the task is accepted iff its length is at least 1 |
| `Home.MinutesIssues` | src/pages/Home/index.tsx:18-21 | the minutes are accepted iff a number with 5 <= m <= 60 |
| `Home.Validate` | src/pages/Home/index.tsx:16-22 | success iff both fields pass, carrying the task and minutes. A failure lists at least one issue, and each issue appears iff its check fails |
| `Home.IsSubmitDisabled` | src/pages/Home/index.tsx:46-48 | `!task` is true exactly when the schema's task check fails |
| `Home.SubmitDisabledIffTaskRejected` | src/pages/Home/index.tsx:46-48 | submit is disabled iff the schema rejects the task; a disabled submit means the values are invalid |
| `Home.DefaultValuesAreRejected` | src/pages/Home/index.tsx:32-35 | the defaults ('' and 0) fail on both fields, and submit is disabled for them |
| `Home.NewCycleFormState.constructor` | src/pages/Home/index.tsx:28-36 | the form starts from the default values |
| `Home.NewCycleFormState.Submit` | src/pages/Home/index.tsx:38-52 | returns the schema's verdict. On success the form is back at the defaults, which the schema rejects; on failure it is unchanged |
| `Home.NewCycleFormState.HandleCreateNewCycle` | src/pages/Home/index.tsx:38-43 | the form is reset to the default values |
| `NewCycleForm.TaskInputDisabled` | src/pages/Home/components/NewCycleForm/index.tsx:17 | the task input is disabled iff some history cycle carries the active id |
| `NewCycleForm.MinutesInputDisabled` | src/pages/Home/components/NewCycleForm/index.tsx:34 | the minutes input is disabled exactly when the task input is |
| `NewCycleForm.InputsDisabledIffActive` | src/pages/Home/components/NewCycleForm/index.tsx:17-34 | under the history invariant both inputs are disabled iff a cycle is active |
| `NewCycleForm.TaskSuggestions` | src/pages/Home/components/NewCycleForm/index.tsx:24-26 | one suggestion per history cycle, in order, duplicates kept; the i-th has the i-th cycle's id as key and its task as value |
| `NewCycleForm.SuggestionKeysAreUnique` | src/pages/Home/components/NewCycleForm/index.tsx:25 | with unique cycle ids the suggestion keys are unique |
| `NewCycleForm.MinutesFieldMatchesSchema` | src/pages/Home/components/NewCycleForm/index.tsx:35-37 | the input's min and max are the schema's bounds, and every stepper value 5, 10, ..., 60 passes the schema |
| `Lifecycle.StartCycle` | src/contexts/CyclesContext/index.tsx:46-57 | create then effect: the new cycle is appended and active, the counter is 0, and the only live interval is the new cycle's, with minutes*60 as its total |
| `Lifecycle.TickThenEffect` | src/pages/Home/components/Countdown/index.tsx:18-49 | one tick, then the effect its counter update re-runs: finishes iff the tick result is a finish, the counter is the tick's seconds; a finishing tick leaves no live interval, otherwise one re-armed interval for the same cycle and total; the intervals still match the store |
| `Lifecycle.TicksThenEffects` | src/pages/Home/components/Countdown/index.tsx:18-49 | ticks at any times, each followed by the effect: the result equals `RunTicks` of the first interval's cycle and total from the current counter; the counter is its seconds, and an interval is live exactly when that run is |
| `Lifecycle.StopCycle` | src/contexts/CyclesContext/index.tsx:59-62 | interrupt then effect: no cycle is active and no interval is live; the history stays settled |
| `Lifecycle.StartInterruptStart` | src/pages/Home/components/Countdown/index.tsx:18-49 | after A, interrupt, B, the history gains A (interrupted) and B in that order. B is active with the counter at 0, and the only live interval is B's |

## Left out

- The cycles reducer and its actions (`src/reducers/cycles/`) are not part of this model.
  `Cycles.CyclesReducer` encodes the transitions the context relies on, as assumptions.
  Among them: interrupt and finish change nothing when no cycle is active.
- No modelled file calls `createNewCycle`: the home page's submit handler only logs and
  resets (src/pages/Home/index.tsx:38-43), and the page does not render the form
  component. `Home.NewCycleFormState.Submit` returns the validated data, and the model
  assumes a caller that passes it to `CreateNewCycle`, as `Lifecycle.StartCycle` does.
  Under that assumption only the form component's disabled inputs would keep a second
  cycle from starting.
- The schema's error messages (src/pages/Home/index.tsx:17-21) are text with no rule
  attached; `Home.Validate` reports which check failed, not the message.
- Real timers: `setInterval`'s one-second cadence is not modelled. A tick is an event with
  its own time, and an interval is a handle in the list of live intervals.
- The order React runs things in: the model re-runs the effect after each store update,
  a tick's included, and before the next tick (`Lifecycle`). A tick that fires between an update and the effect
  is allowed (`Countdown.Countdown.Tick`), but its "intervals match the store" guarantee
  holds only if they matched before.
- date-fns `differenceInSeconds` is modelled as the truncated whole-second difference of
  two millisecond times. The bounds lemmas assume the clock does not go back past the
  cycle's start.
- `crypto.randomUUID` is a parameter. `CreateNewCycle` requires it to differ from every
  id in the history.
- The `document.title` effect (src/pages/Home/components/Countdown/index.tsx:68-72) is
  browser I/O.
- `console.log` in the submit handler, the JSX markup and styling, and the internals of
  React, react-hook-form and zod are left out. Only the rules they encode are kept. On the
  home page that markup includes a fixed datalist and a fixed "00:00".
- JavaScript numbers are doubles: `String(n)` switches to exponent form from 1e21
  (`"1e+21"`), which `CountdownDisplay.IntToString` on unbounded integers does not do.
  Minutes within the schema's 5..60 never come near it.
- The minutes input is an integer or NaN. A fractional number, which the schema would
  accept, is not modelled.
- `src/App.tsx`, `src/components/Button/index.tsx` and `src/@types/styled.d.ts` hold
  routing, theming and type declarations with no logic.
- The countdown imports the context from `'../..'` (src/pages/Home/components/Countdown/index.tsx:3),
  and the home page does not export it. The model uses src/contexts/CyclesContext/index.tsx.
