# Tally counter

A Dafny model of the tally counter web component `Hello` (registered as
`tally-app`). The component holds a tally `value` and two bounds, `depleted`
(default -30) and `exceeded` (default 30). It also holds a status label
(`Idle`, `Max reached` or `Min reached`) and a flag `open` that shows the
dialog "The counter has been set to zero". There are three buttons: subtract,
reset and add. Reset also starts a 1500 ms timer that flips the dialog again.

The handlers never clamp. The counter stays within bounds only because
`render` disables a button: subtract while the label is Min, add while it is
Max, and reset while the value is 0.

There are two modules:

- `TallyModel` (tally_model.dfy) works on values. It has a `Counter` snapshot
  of the five fields plus `pending`, the number of reset timers that have not
  fired yet. It defines a step function for each event (`Sub`, `Add`, `Reset`
  and `Fire`, a timer's callback), the `Enabled` guard read off the three
  `?disabled` bindings, the invariant `Inv`, and `Run`, which replays a gated
  sequence of events. The lemmas prove that every gated run from the
  constructor state keeps:
  - the value between the bounds;
  - the label in step with the value: Max exactly at `exceeded`, Min exactly
    at `depleted`, Idle strictly between;
  - the dialog open exactly while an odd number of timers is pending, so it is
    closed once every timer has fired.
- `TallyComponent` (tally_component.dfy) is the class `Hello`. Its fields
  match the component's, plus a ghost `pending` counter. `SubHandler`,
  `AddHandler`, `ResetHandler` and `ToggleOpen` have no preconditions. Each
  one states its new fields exactly and that the new snapshot is
  `TallyModel.Step` of the old one (`Toggle` for `ToggleOpen`, which is
  not an event of its own). `TimerFires` stands for the `setTimeout`
  callback. `Act` delivers one enabled event and keeps `Valid()`.

Reset flips `open` rather than setting it (`toggleOpen`,
tally-component.js:225). So a second reset while a timer is pending hides the
dialog, and the first timer to fire shows it again; `OverlappingResets`
states this.

## Model

| member | source | states |
|---|---|---|
| `TallyModel.Step` | tally-component.js:204-229 | no event changes the bounds `depleted` and `exceeded` |
| `TallyModel.Run` | tally-component.js:204-229 | a whole gated run leaves the bounds unchanged |
| `TallyModel.InitialSatisfiesInv` | tally-component.js:191-198 | the constructor state (value 0, Idle, dialog closed, no timer) satisfies the invariant for any bounds with `depleted < 0 < exceeded` |
| `TallyModel.StepPreservesInv` | tally-component.js:204-264 | each event that is enabled (button not disabled, or a timer pending) keeps bounds, label/value link and dialog parity |
| `TallyModel.ToggleInvolution` | tally-component.js:200-202 | `toggleOpen` flips `open`, and applying it twice is the identity |
| `TallyModel.SubUndoesAdd` | tally-component.js:204-220 | under the invariant, when add is enabled, subtract after add restores the exact prior state |
| `TallyModel.AddUndoesSub` | tally-component.js:204-220 | under the invariant, when subtract is enabled, add after subtract restores the exact prior state |
| `TallyModel.StatusFollowsValue` | tally-component.js:204-220 | under the invariant the label is Max at `exceeded`, Min at `depleted` and Idle strictly between |
| `TallyModel.RunPreservesInv` | tally-component.js:204-264 | a gated run from a state satisfying the invariant ends in one |
| `TallyModel.GatedPrefix` | tally-component.js:252-270 | every prefix of a gated run is gated |
| `TallyModel.InvThroughout` | tally-component.js:204-264 | the invariant holds after every prefix of a gated run |
| `TallyModel.GatedRunFromInitial` | tally-component.js:191-264 | from the constructor state with `depleted < 0 < exceeded`, at every point of a gated run: `depleted <= value <= exceeded`; Max exactly when the value is `exceeded`; Min exactly when it is `depleted`; strictly between implies Idle; `open` exactly when an odd number of timers is pending; no pending timer implies the dialog is closed |
| `TallyModel.CountUp` | tally-component.js:213-220 | k enabled adds that do not pass `exceeded` raise the value by k, and the label is Max exactly when the upper bound is reached |
| `TallyModel.CountDown` | tally-component.js:204-211 | k enabled subtracts that do not pass `depleted` lower the value by k, and the label is Min exactly when the lower bound is reached |
| `TallyModel.ThirtyUpThenOneDown` | tally-component.js:191-220 | from the defaults, thirty adds give 30, Max and a disabled add button; one subtract then gives 29 and Idle |
| `TallyModel.ThirtyDown` | tally-component.js:191-211 | from the defaults, thirty subtracts give -30, Min and a disabled subtract button |
| `TallyModel.ResetThenFire` | tally-component.js:222-229 | with no timer pending, reset gives 0, Idle, an open dialog and a disabled reset button; the timer it schedules closes the dialog again |
| `TallyModel.OverlappingResets` | tally-component.js:222-229 | reset, add, reset leaves the dialog closed with two timers pending; the first timer then reopens it |
| `TallyComponent.Hello.constructor` | tally-component.js:191-198 | value 0, `open` false, bounds -30 and 30, state Idle, no timer pending; the invariant holds |
| `TallyComponent.Hello.ToggleOpen` | tally-component.js:200-202 | flips `open` and changes no other field |
| `TallyComponent.Hello.SubHandler` | tally-component.js:204-211 | value becomes old value - 1; state is Min exactly when the new value equals `depleted`, else Idle; no other field changes |
| `TallyComponent.Hello.AddHandler` | tally-component.js:213-220 | value becomes old value + 1; state is Max exactly when the new value equals `exceeded`, else Idle; no other field changes |
| `TallyComponent.Hello.ResetHandler` | tally-component.js:222-229 | value 0, state Idle, `open` flipped once, exactly one more pending timer, bounds unchanged |
| `TallyComponent.Hello.TimerFires` | tally-component.js:226-228 | a pending timer's callback flips `open` and removes that timer; nothing else changes |
| `TallyComponent.Hello.Act` | tally-component.js:204-264 | delivering any enabled event keeps `Valid()`, and the new fields are `Step` of the old ones |
| `TallyComponent.ResetScenario` | tally-component.js:213-229 | with a fresh component, five adds and then a reset leave the value 0 and the dialog open; after the timer fires the dialog is closed |

## Left out

- Styling (`static styles`) and the template markup of `render`, except the three `?disabled` conditions. These only affect presentation.
- Lit re-rendering, attribute reflection through `static properties` and `customElements.define`. These are framework calls. Setting `value`, `depleted` or `exceeded` from outside bypasses every invariant, so the model assumes only the handlers change state. The one exception is the bounds: the run theorem allows any bounds with `depleted < 0 < exceeded` in the initial state.
- The 1500 ms delay of `setTimeout`. A timer is an event, `Fire` / `TimerFires`, that may happen at any point while one is pending. Time and concurrency are not modelled.
- The decimal string encoding of `value` (`parseInt`, `toString`, and the comparison with `'0'`). `value` is an unbounded `int`, and the decimal round trip is assumed exact.
- The display strings of the `States` labels. A three-constructor datatype stands for them.
