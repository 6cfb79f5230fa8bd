/**
 * The `Hello` element as an object whose handlers assign its fields in place.
 * Each handler states its new fields exactly and ties the new snapshot to
 * `TallyModel.Step`, so the lemmas proved there apply to any sequence of calls.
 */
module TallyComponent {
  import opened TallyModel

  class Hello {
    var value: int
    var state: Status
    var open: bool
    var depleted: int
    var exceeded: int
    /** Timers scheduled by `ResetHandler` whose callback has not run yet. */
    ghost var pending: nat

    /** The object's fields as a `TallyModel.Counter`. */
    ghost function Snapshot(): Counter
      reads this
    {
      Counter(value, state, open, depleted, exceeded, pending)
    }

    /** The invariant that enabled actions keep. */
    ghost predicate Valid()
      reads this
    {
      Inv(Snapshot())
    }

    constructor ()
      ensures value == 0 && !open && depleted == -30 && exceeded == 30 && state == Idle
      ensures pending == 0
      ensures Snapshot() == Init() && Valid()
    {
      value := 0;
      open := false;
      depleted := -30;
      exceeded := 30;
      state := Idle;
      pending := 0;
      InitialSatisfiesInv(-30, 30);
    }

    method ToggleOpen()
      modifies this
      ensures open == !old(open)
      ensures value == old(value) && state == old(state)
      ensures depleted == old(depleted) && exceeded == old(exceeded) && pending == old(pending)
      ensures Snapshot() == Toggle(old(Snapshot()))
    {
      open := !open;
    }

    method SubHandler()
      modifies this
      ensures value == old(value) - 1
      ensures state == (if value == depleted then Min else Idle)
      ensures open == old(open) && depleted == old(depleted) && exceeded == old(exceeded)
      ensures pending == old(pending)
      ensures Snapshot() == Step(old(Snapshot()), Sub)
    {
      var num := value;
      num := num - 1;
      if num == depleted {
        state := Min;
      } else {
        state := Idle;
      }
      value := num;
    }

    method AddHandler()
      modifies this
      ensures value == old(value) + 1
      ensures state == (if value == exceeded then Max else Idle)
      ensures open == old(open) && depleted == old(depleted) && exceeded == old(exceeded)
      ensures pending == old(pending)
      ensures Snapshot() == Step(old(Snapshot()), Add)
    {
      var num := value;
      num := num + 1;
      if num == exceeded {
        state := Max;
      } else {
        state := Idle;
      }
      value := num;
    }

    /** Resets the tally, opens (flips) the dialog and schedules `TimerFires`. */
    method ResetHandler()
      modifies this
      ensures value == 0 && state == Idle
      ensures open == !old(open)
      ensures pending == old(pending) + 1
      ensures depleted == old(depleted) && exceeded == old(exceeded)
      ensures Snapshot() == Step(old(Snapshot()), Reset)
    {
      state := Idle;
      value := 0;
      ToggleOpen();
      pending := pending + 1;
    }

    /** The `setTimeout` callback of an earlier reset; it only runs while one is pending. */
    method TimerFires()
      requires pending > 0
      modifies this
      ensures open == !old(open)
      ensures pending == old(pending) - 1
      ensures value == old(value) && state == old(state)
      ensures depleted == old(depleted) && exceeded == old(exceeded)
      ensures Snapshot() == Step(old(Snapshot()), Fire)
    {
      ToggleOpen();
      pending := pending - 1;
    }

    /** One event the page can deliver: a click on an enabled button, or a pending timer firing. */
    method Act(a: Action)
      requires Valid() && Enabled(Snapshot(), a)
      modifies this
      ensures Valid()
      ensures Snapshot() == Step(old(Snapshot()), a)
    {
      StepPreservesInv(Snapshot(), a);
      match a
      case Sub => SubHandler();
      case Add => AddHandler();
      case Reset => ResetHandler();
      case Fire => TimerFires();
    }
  }

  /**
   * A client of the handlers' contracts: five adds, a reset and its timer.
   * Returns the value and the dialog flag just after the reset, and the flag
   * once the timer has fired.
   */
  method ResetScenario() returns (afterReset: int, openAfterReset: bool, openAfterTimer: bool)
    ensures afterReset == 0 && openAfterReset && !openAfterTimer
  {
    var h := new Hello();
    h.AddHandler();
    h.AddHandler();
    h.AddHandler();
    h.AddHandler();
    h.AddHandler();
    assert h.value == 5 && h.state == Idle;
    h.ResetHandler();
    afterReset, openAfterReset := h.value, h.open;
    h.TimerFires();
    openAfterTimer := h.open;
  }
}
