/**
 * Value-level model of the tally counter held by the `Hello` element.
 *
 * A `Counter` is a snapshot of the element's five fields plus the number of
 * reset timers that have been scheduled and have not fired yet.  The user can
 * press three buttons (subtract, reset, add) and the browser can fire a
 * pending timer; `Step` gives the effect of each, `Enabled` says when render
 * leaves the button enabled, and the lemmas show that every gated run from the
 * initial state keeps the counter between its bounds, keeps the status label
 * in step with the value, and keeps the confirmation dialog open exactly while
 * an odd number of timers is pending.
 */
module TallyModel {

  /** The three labels of the frozen `States` object. */
  datatype Status = Idle | Max | Min

  /**
   * One snapshot of the element.  `pending` counts the `setTimeout` callbacks
   * that `resetHandler` scheduled and that have not run yet.
   */
  datatype Counter = Counter(
    value: int,
    status: Status,
    open: bool,
    depleted: int,
    exceeded: int,
    pending: nat)

  /** What can happen to the element: a click on one of three buttons, or a timer firing. */
  datatype Action = Sub | Add | Reset | Fire

  /** The state the constructor builds, with bounds `depleted` and `exceeded`. */
  function Initial(depleted: int, exceeded: int): Counter
  {
    Counter(0, Idle, false, depleted, exceeded, 0)
  }

  /** The constructor's own defaults: bounds -30 and 30. */
  function Init(): Counter
  {
    Initial(-30, 30)
  }

  /** `toggleOpen`: flip the dialog flag. */
  function Toggle(c: Counter): Counter
  {
    c.(open := !c.open)
  }

  /** `subHandler`: one step down, labelled Min when the new value is the lower bound; no clamping. */
  function SubStep(c: Counter): Counter
  {
    var num := c.value - 1;
    c.(value := num, status := if num == c.depleted then Min else Idle)
  }

  /** `addHandler`: one step up, labelled Max when the new value is the upper bound; no clamping. */
  function AddStep(c: Counter): Counter
  {
    var num := c.value + 1;
    c.(value := num, status := if num == c.exceeded then Max else Idle)
  }

  /** `resetHandler`: back to zero and Idle, flip the dialog, schedule one more timer. */
  function ResetStep(c: Counter): Counter
  {
    Toggle(c.(value := 0, status := Idle, pending := c.pending + 1))
  }

  /** The callback of one pending `setTimeout`: flip the dialog; that timer is gone. */
  function FireStep(c: Counter): Counter
    requires c.pending > 0
  {
    Toggle(c.(pending := c.pending - 1))
  }

  /** The three `?disabled` bindings of `render`. */
  predicate SubtractDisabled(c: Counter) { c.status == Min }
  predicate ResetDisabled(c: Counter) { c.value == 0 }
  predicate AddDisabled(c: Counter) { c.status == Max }

  /** An action can happen when its button is enabled, or, for a timer, when one is pending. */
  predicate Enabled(c: Counter, a: Action)
  {
    match a
    case Sub => !SubtractDisabled(c)
    case Add => !AddDisabled(c)
    case Reset => !ResetDisabled(c)
    case Fire => c.pending > 0
  }

  /** The effect of one action.  Handlers have no guard of their own; only a timer needs to be pending. */
  function Step(c: Counter, a: Action): (r: Counter)
    requires a == Fire ==> c.pending > 0
    ensures r.depleted == c.depleted && r.exceeded == c.exceeded
  {
    match a
    case Sub => SubStep(c)
    case Add => AddStep(c)
    case Reset => ResetStep(c)
    case Fire => FireStep(c)
  }

  /**
   * What the element promises between events: the bounds straddle zero, the
   * value lies between them, the label is Max exactly at the upper bound and
   * Min exactly at the lower one, and the dialog is open exactly when an odd
   * number of timers is pending.
   */
  predicate Inv(c: Counter)
  {
    && c.depleted < 0 < c.exceeded
    && c.depleted <= c.value <= c.exceeded
    && (c.status == Max <==> c.value == c.exceeded)
    && (c.status == Min <==> c.value == c.depleted)
    && (c.open <==> c.pending % 2 == 1)
  }

  /** A sequence of actions, each enabled in the state the previous ones left. */
  predicate Gated(c: Counter, acts: seq<Action>)
    decreases |acts|
  {
    acts == [] || (Enabled(c, acts[0]) && Gated(Step(c, acts[0]), acts[1..]))
  }

  /** The state after a gated sequence of actions. */
  function Run(c: Counter, acts: seq<Action>): (r: Counter)
    requires Gated(c, acts)
    ensures r.depleted == c.depleted && r.exceeded == c.exceeded
    decreases |acts|
  {
    if acts == [] then c else Run(Step(c, acts[0]), acts[1..])
  }

  /** `n` copies of one action. */
  function Repeat(a: Action, n: nat): (r: seq<Action>)
    ensures |r| == n && forall i :: 0 <= i < n ==> r[i] == a
  {
    if n == 0 then [] else [a] + Repeat(a, n - 1)
  }

  // ---------------------------------------------------------------------------
  // One step at a time

  /** The constructor state satisfies the invariant for any bounds that straddle zero. */
  lemma InitialSatisfiesInv(depleted: int, exceeded: int)
    requires depleted < 0 < exceeded
    ensures Inv(Initial(depleted, exceeded))
    ensures Initial(depleted, exceeded).value == 0 && Initial(depleted, exceeded).status == Idle
    ensures !Initial(depleted, exceeded).open && Initial(depleted, exceeded).pending == 0
  {
  }

  /** Every enabled action keeps the invariant. */
  lemma StepPreservesInv(c: Counter, a: Action)
    requires Inv(c) && Enabled(c, a)
    ensures Inv(Step(c, a))
  {
  }

  /** `toggleOpen` applied twice changes nothing. */
  lemma ToggleInvolution(c: Counter)
    ensures Toggle(Toggle(c)) == c
    ensures Toggle(c).open != c.open
  {
  }

  /** Away from the upper bound, subtract undoes add. */
  lemma SubUndoesAdd(c: Counter)
    requires Inv(c) && Enabled(c, Add)
    ensures SubStep(AddStep(c)) == c
  {
  }

  /** Away from the lower bound, add undoes subtract. */
  lemma AddUndoesSub(c: Counter)
    requires Inv(c) && Enabled(c, Sub)
    ensures AddStep(SubStep(c)) == c
  {
  }

  /**
   * Under the invariant the label is a function of the value: Max at the upper
   * bound, Min at the lower bound and Idle strictly between them.
   */
  lemma StatusFollowsValue(c: Counter)
    requires Inv(c)
    ensures c.status == (if c.value == c.exceeded then Max
                         else if c.value == c.depleted then Min
                         else Idle)
  {
  }

  // ---------------------------------------------------------------------------
  // Whole runs

  /** A gated run from a state with the invariant ends in a state with the invariant. */
  lemma {:induction false} RunPreservesInv(c: Counter, acts: seq<Action>)
    requires Inv(c) && Gated(c, acts)
    ensures Inv(Run(c, acts))
    decreases |acts|
  {
    if acts != [] {
      StepPreservesInv(c, acts[0]);
      RunPreservesInv(Step(c, acts[0]), acts[1..]);
    }
  }

  /** Every prefix of a gated run is gated. */
  lemma {:induction false} GatedPrefix(c: Counter, acts: seq<Action>, k: nat)
    requires Gated(c, acts) && k <= |acts|
    ensures Gated(c, acts[..k])
    decreases k
  {
    if k > 0 {
      assert acts[..k][0] == acts[0];
      assert acts[..k][1..] == acts[1..][..k - 1];
      GatedPrefix(Step(c, acts[0]), acts[1..], k - 1);
    }
  }

  /** The invariant holds after every prefix of a gated run, not only at its end. */
  lemma {:induction false} InvThroughout(c: Counter, acts: seq<Action>, k: nat)
    requires Inv(c) && Gated(c, acts) && k <= |acts|
    ensures Gated(c, acts[..k]) && Inv(Run(c, acts[..k]))
  {
    GatedPrefix(c, acts, k);
    RunPreservesInv(c, acts[..k]);
  }

  /**
   * The main theorem.  Starting from the constructor state with bounds that
   * straddle zero and pressing only enabled buttons (and letting pending timers
   * fire), at every point of the run the value stays between the bounds, the
   * label matches the value, and the dialog is open exactly while an odd number
   * of timers is pending; in particular it is closed once every timer has fired.
   */
  lemma GatedRunFromInitial(depleted: int, exceeded: int, acts: seq<Action>, k: nat)
    requires depleted < 0 < exceeded
    requires Gated(Initial(depleted, exceeded), acts) && k <= |acts|
    ensures Gated(Initial(depleted, exceeded), acts[..k])
    ensures var s := Run(Initial(depleted, exceeded), acts[..k]);
      && depleted <= s.value <= exceeded
      && (s.status == Max <==> s.value == exceeded)
      && (s.status == Min <==> s.value == depleted)
      && (depleted < s.value < exceeded ==> s.status == Idle)
      && (s.open <==> s.pending % 2 == 1)
      && (s.pending == 0 ==> !s.open)
  {
    InitialSatisfiesInv(depleted, exceeded);
    InvThroughout(Initial(depleted, exceeded), acts, k);
  }

  // ---------------------------------------------------------------------------
  // Counting to a bound

  /** Pressing add `k` times from a state with the invariant, without passing the upper bound. */
  lemma {:induction false} CountUp(c: Counter, k: nat)
    requires Inv(c) && c.value + k <= c.exceeded
    ensures Gated(c, Repeat(Add, k))
    ensures Run(c, Repeat(Add, k)) ==
      c.(value := c.value + k,
         status := if k == 0 then c.status else if c.value + k == c.exceeded then Max else Idle)
    decreases k
  {
    if k > 0 {
      var acts := Repeat(Add, k);
      assert acts[0] == Add && acts[1..] == Repeat(Add, k - 1);
      StepPreservesInv(c, Add);
      CountUp(Step(c, Add), k - 1);
    }
  }

  /** Pressing subtract `k` times from a state with the invariant, without passing the lower bound. */
  lemma {:induction false} CountDown(c: Counter, k: nat)
    requires Inv(c) && c.depleted <= c.value - k
    ensures Gated(c, Repeat(Sub, k))
    ensures Run(c, Repeat(Sub, k)) ==
      c.(value := c.value - k,
         status := if k == 0 then c.status else if c.value - k == c.depleted then Min else Idle)
    decreases k
  {
    if k > 0 {
      var acts := Repeat(Sub, k);
      assert acts[0] == Sub && acts[1..] == Repeat(Sub, k - 1);
      StepPreservesInv(c, Sub);
      CountDown(Step(c, Sub), k - 1);
    }
  }

  /**
   * With the default bounds: thirty adds reach 30 and label it Max, which
   * disables add; one subtract then gives 29 and Idle.
   */
  lemma ThirtyUpThenOneDown()
    ensures Gated(Init(), Repeat(Add, 30))
    ensures var s := Run(Init(), Repeat(Add, 30));
      && s.value == 30 && s.status == Max && AddDisabled(s)
      && Step(s, Sub).value == 29 && Step(s, Sub).status == Idle
  {
    InitialSatisfiesInv(-30, 30);
    CountUp(Init(), 30);
  }

  /** With the default bounds: thirty subtracts reach -30 and label it Min, which disables subtract. */
  lemma ThirtyDown()
    ensures Gated(Init(), Repeat(Sub, 30))
    ensures var s := Run(Init(), Repeat(Sub, 30));
      s.value == -30 && s.status == Min && SubtractDisabled(s)
  {
    InitialSatisfiesInv(-30, 30);
    CountDown(Init(), 30);
  }

  /**
   * From any state with the invariant and no pending timer, a reset opens the
   * dialog at zero and Idle, and the one timer it schedules closes it again.
   */
  lemma ResetThenFire(c: Counter)
    requires Inv(c) && c.pending == 0 && !ResetDisabled(c)
    ensures Gated(c, [Reset, Fire])
    ensures var r := Step(c, Reset);
      r.value == 0 && r.status == Idle && r.open && ResetDisabled(r)
    ensures !Run(c, [Reset, Fire]).open && Run(c, [Reset, Fire]).pending == 0
  {
  }

  /**
   * Reset flips the dialog rather than showing it: a second reset while the
   * first timer is pending hides the dialog, and the first timer to fire
   * shows it again.
   */
  lemma OverlappingResets(c: Counter)
    requires Inv(c) && c.pending == 0 && !ResetDisabled(c)
    ensures Gated(c, [Reset, Add, Reset, Fire])
    ensures var s := Run(c, [Reset, Add, Reset]);
      !s.open && s.value == 0 && s.pending == 2
    ensures var s := Run(c, [Reset, Add, Reset, Fire]);
      s.open && s.pending == 1
  {
  }
}
