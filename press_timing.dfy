/**
 * The press and auto-repeat handlers. One timeout handle and one interval
 * handle are shared by every field and both arrows (the module-level
 * `timeoutID` and `intervalID`). The host's timer table is modelled beside
 * them: the one armed timeout that has not fired or been cleared, and the
 * one repeating interval, each with the callback arguments it captured.
 * Ids come from a counter and are never 0, as a browser's timer ids are
 * positive, so an unset handle (`undefined`) is `None`.
 */
module PressTiming {
  import opened Wrappers
  import opened Stepping
  import opened Field

  /** `waitTimeout`: how long a press is held before repeating starts. */
  const WaitTimeout: nat := 300
  /** `repeatInterval`: the period of the repeat. */
  const RepeatInterval: nat := 50

  /** A timer the host holds: its id, its delay and the arguments bound into its callback. */
  datatype Timer = Timer(id: nat, delay: nat, target: NumberInput, key: ArrowKey, phase: Phase)

  class PressController {
    /** `timeoutID`. */
    var timeoutID: Option<nat>
    /** `intervalID`. */
    var intervalID: Option<nat>
    /** The host's armed timeout that has neither fired nor been cleared. */
    var pendingTimeout: Option<Timer>
    /** The host's running interval. */
    var repeating: Option<Timer>
    /** The next id the host hands out. */
    var nextID: nat

    /**
     * How the handles and the host's timers stay in step: a pending timeout
     * is the one `timeoutID` names and no interval runs beside it; an
     * interval runs exactly when `intervalID` names it, and only after a
     * timeout was armed; both callbacks step on keydown.
     */
    predicate Valid()
      reads this
    {
      nextID >= 1
      && (timeoutID.Some? ==> 1 <= timeoutID.value < nextID)
      && (intervalID.Some? ==> 1 <= intervalID.value < nextID)
      && (pendingTimeout.Some? ==>
            timeoutID == Some(pendingTimeout.value.id) && intervalID.None?
            && pendingTimeout.value.delay == WaitTimeout && pendingTimeout.value.phase == KeyDown)
      && (intervalID.Some? <==> repeating.Some?)
      && (repeating.Some? ==>
            intervalID == Some(repeating.value.id) && timeoutID.Some?
            && repeating.value.delay == RepeatInterval && repeating.value.phase == KeyDown)
    }

    /** Page load: both handles unset, no timers. */
    constructor ()
      ensures Valid()
      ensures timeoutID.None? && intervalID.None?
      ensures pendingTimeout.None? && repeating.None?
    {
      timeoutID := None;
      intervalID := None;
      pendingTimeout := None;
      repeating := None;
      nextID := 1;
    }

    /**
     * `onArrowDownStart` / `onArrowUpStart` (mouse down or touch start).
     * With no timeout handle it dispatches a keydown on the field, without
     * touching its value, and arms the wait timeout for this field and arrow;
     * with a handle set, from any field and either arrow, it does nothing.
     */
    method Start(field: NumberInput, key: ArrowKey)
      requires Valid()
      modifies this, field`log
      ensures Valid()
      ensures old(timeoutID).Some? ==>
                timeoutID == old(timeoutID) && intervalID == old(intervalID)
                && pendingTimeout == old(pendingTimeout) && repeating == old(repeating)
                && nextID == old(nextID) && field.log == old(field.log)
      ensures old(timeoutID).None? ==>
                timeoutID == Some(old(nextID)) && nextID == old(nextID) + 1
                && intervalID.None? && repeating.None?
                && pendingTimeout == Some(Timer(old(nextID), WaitTimeout, field, key, KeyDown))
                && field.log == old(field.log) + [KeyEventFor(key, KeyDown)]
      ensures field.value == old(field.value)
    {
      if timeoutID.None? {
        field.DispatchEvent(KeyEventFor(key, KeyDown));
        timeoutID := Some(nextID);
        pendingTimeout := Some(Timer(nextID, WaitTimeout, field, key, KeyDown));
        nextID := nextID + 1;
      }
    }

    /**
     * `repeatUpdateNumberInputValue`: arms the repeat interval for the field,
     * arrow and phase, unless an interval handle is already set.
     */
    method RepeatUpdate(field: NumberInput, key: ArrowKey, phase: Phase)
      modifies this
      ensures timeoutID == old(timeoutID) && pendingTimeout == old(pendingTimeout)
      ensures old(intervalID).Some? ==> intervalID == old(intervalID) && repeating == old(repeating) && nextID == old(nextID)
      ensures old(intervalID).None? ==>
                intervalID == Some(old(nextID)) && nextID == old(nextID) + 1
                && repeating == Some(Timer(old(nextID), RepeatInterval, field, key, phase))
    {
      if intervalID.None? {
        intervalID := Some(nextID);
        repeating := Some(Timer(nextID, RepeatInterval, field, key, phase));
        nextID := nextID + 1;
      }
    }

    /**
     * The host fires the pending wait timeout, if there is one: it is gone
     * from the host, `timeoutID` keeps its stale id (so starts stay ignored),
     * and the interval for the captured field and arrow is armed. By Valid()
     * no interval runs while a timeout is pending, so the guard always lets
     * it through.
     */
    method TimeoutFires()
      requires Valid()
      modifies this
      ensures Valid()
      ensures timeoutID == old(timeoutID)
      ensures pendingTimeout.None?
      ensures old(pendingTimeout).None? ==>
                intervalID == old(intervalID) && repeating == old(repeating) && nextID == old(nextID)
      ensures old(pendingTimeout).Some? ==>
                var t := old(pendingTimeout).value;
                intervalID == Some(old(nextID)) && nextID == old(nextID) + 1
                && repeating == Some(Timer(old(nextID), RepeatInterval, t.target, t.key, KeyDown))
    {
      if pendingTimeout.Some? {
        var t := pendingTimeout.value;
        pendingTimeout := None;
        RepeatUpdate(t.target, t.key, t.phase);
      }
    }

    /** The field a running interval steps, if one runs. */
    function Targets(): set<NumberInput>
      reads this
    {
      if repeating.Some? then {repeating.value.target} else {}
    }

    /**
     * The host runs the interval's callback once: one keydown-phase step on
     * the field and arrow it captured. The handles and timers stay as they are.
     */
    method Tick()
      requires Valid()
      modifies Targets()`value, Targets()`log
      ensures repeating.Some? ==>
                var t := repeating.value;
                t.target.value == SteppedText(old(t.target.value), old(t.target.step), old(t.target.min), old(t.target.max), t.key)
                && t.target.log == old(t.target.log) + [KeyEventFor(t.key, KeyDown), InputEvent, ChangeEvent]
    {
      if repeating.Some? {
        var t := repeating.value;
        UpdateNumberInputValue(t.target, t.key, t.phase);
      }
    }

    /**
     * `onArrowDownEnd` / `onArrowUpEnd` (mouse up or touch end): both handles
     * are cleared, and with them the host's timers, whether or not anything
     * was armed; then the field takes one keyup-phase step in this arrow's
     * direction and is focused.
     */
    method End(field: NumberInput, key: ArrowKey)
      requires Valid()
      modifies this, field`value, field`log
      ensures Valid()
      ensures timeoutID.None? && intervalID.None?
      ensures pendingTimeout.None? && repeating.None? && nextID == old(nextID)
      ensures field.value == SteppedText(old(field.value), old(field.step), old(field.min), old(field.max), key)
      ensures field.log == old(field.log) + [KeyEventFor(key, KeyUp), InputEvent, ChangeEvent] + [Focused]
    {
      ClearInterval(intervalID);
      intervalID := None;
      ClearTimeout(timeoutID);
      timeoutID := None;
      assert Valid() && pendingTimeout.None? && repeating.None?;
      UpdateNumberInputValue(field, key, KeyUp);
      field.Focus();
    }

    /** `clearInterval(id)`: cancels the running interval with that id; any other id is ignored. */
    method ClearInterval(id: Option<nat>)
      modifies this`repeating
      ensures repeating == if old(repeating).Some? && id == Some(old(repeating).value.id) then None else old(repeating)
    {
      if repeating.Some? && id == Some(repeating.value.id) {
        repeating := None;
      }
    }

    /** `clearTimeout(id)`: cancels the pending timeout with that id; any other id is ignored. */
    method ClearTimeout(id: Option<nat>)
      modifies this`pendingTimeout
      ensures pendingTimeout == if old(pendingTimeout).Some? && id == Some(old(pendingTimeout).value.id) then None else old(pendingTimeout)
    {
      if pendingTimeout.Some? && id == Some(pendingTimeout.value.id) {
        pendingTimeout := None;
      }
    }
  }

  /**
   * A press released before the wait timeout fires changes the value exactly
   * once, on release: keydown on press, then keyup, input, change and focus.
   */
  method QuickPress(c: PressController, field: NumberInput, key: ArrowKey)
    requires c.Valid() && c.timeoutID.None?
    modifies c, field`value, field`log
    ensures c.Valid() && c.timeoutID.None? && c.intervalID.None?
    ensures field.value == SteppedText(old(field.value), old(field.step), old(field.min), old(field.max), key)
    ensures field.log == old(field.log)
              + [KeyEventFor(key, KeyDown)]
              + [KeyEventFor(key, KeyUp), InputEvent, ChangeEvent] + [Focused]
  {
    c.Start(field, key);
    c.End(field, key);
  }

  /**
   * While one press is held, a press on another field (or the other arrow)
   * dispatches nothing and arms nothing: the handles are shared.
   */
  method SecondStartIgnored(c: PressController, first: NumberInput, other: NumberInput, key1: ArrowKey, key2: ArrowKey)
    requires c.Valid() && c.timeoutID.None?
    modifies c, first`log, other`log
    ensures c.Valid()
    ensures c.pendingTimeout == Some(Timer(old(c.nextID), WaitTimeout, first, key1, KeyDown))
    ensures other != first ==> other.log == old(other.log)
    ensures first.value == old(first.value) && other.value == old(other.value)
  {
    c.Start(first, key1);
    c.Start(other, key2);
  }

  /**
   * A press held past the wait timeout for two repeats, then released: the
   * value steps on each repeat and once more on release, three steps in all.
   */
  method HeldPress(c: PressController, field: NumberInput, key: ArrowKey)
    requires c.Valid() && c.timeoutID.None?
    modifies c, field`value, field`log
    ensures c.Valid() && c.timeoutID.None? && c.intervalID.None?
    ensures var once := SteppedText(old(field.value), old(field.step), old(field.min), old(field.max), key);
            var twice := SteppedText(once, old(field.step), old(field.min), old(field.max), key);
            field.value == SteppedText(twice, old(field.step), old(field.min), old(field.max), key)
    ensures field.log == old(field.log)
              + [KeyEventFor(key, KeyDown)]
              + [KeyEventFor(key, KeyDown), InputEvent, ChangeEvent]
              + [KeyEventFor(key, KeyDown), InputEvent, ChangeEvent]
              + [KeyEventFor(key, KeyUp), InputEvent, ChangeEvent] + [Focused]
  {
    c.Start(field, key);
    c.TimeoutFires();
    assert c.Targets() == {field};
    c.Tick();
    c.Tick();
    c.End(field, key);
  }
}
