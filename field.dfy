/**
 * The number field and `updateNumberInputValue`: the field's attributes are
 * strings, what the widget dispatches on it and the focus it gives it are
 * recorded, in order, in an append-only log.
 */
module Field {
  import opened Stepping

  /** The three `uiEventTypes`; the widget itself only ever uses keydown and keyup. */
  datatype Phase = KeyDown | KeyPress | KeyUp

  /** What happens to a field that the outside world can observe. */
  datatype Notification =
    | KeyEvent(phase: Phase, key: ArrowKey, keyCode: int)
    | InputEvent
    | ChangeEvent
    | Focused

  /** `createKeyEvent(key, type)`: a keyboard event of the phase, for the key, carrying its key code. */
  function KeyEventFor(key: ArrowKey, phase: Phase): (n: Notification)
    ensures n.KeyEvent? && n.phase == phase && n.key == key
    ensures n.keyCode == (if key == ArrowUp then 38 else 40)
  {
    KeyEvent(phase, key, KeyCode(key))
  }

  /** An `<input type="number">` with the attributes the widget reads and writes. */
  class NumberInput {
    var value: string
    var step: string
    var min: string
    var max: string
    var log: seq<Notification>

    constructor (value: string, step: string, min: string, max: string)
      ensures this.value == value && this.step == step && this.min == min && this.max == max
      ensures log == []
    {
      this.value := value;
      this.step := step;
      this.min := min;
      this.max := max;
      log := [];
    }

    /** `dispatchEvent`: the event is delivered, and nothing about the field changes. */
    method DispatchEvent(n: Notification)
      modifies this`log
      ensures log == old(log) + [n]
    {
      log := log + [n];
    }

    /** `focus()`. */
    method Focus()
      modifies this`log
      ensures log == old(log) + [Focused]
    {
      log := log + [Focused];
    }
  }

  /**
   * One step of the field in the arrow's direction: the stepped, clamped,
   * formatted and trimmed value is written, then a key event of the given
   * phase, `input` and `change` are dispatched, in that order. Step, min and
   * max are left as they are.
   */
  method UpdateNumberInputValue(input: NumberInput, key: ArrowKey, phase: Phase)
    modifies input`value, input`log
    ensures input.value == SteppedText(old(input.value), old(input.step), old(input.min), old(input.max), key)
    ensures input.log == old(input.log) + [KeyEventFor(key, phase), InputEvent, ChangeEvent]
  {
    var text := SteppedText(input.value, input.step, input.min, input.max, key);
    input.value := text;
    input.DispatchEvent(KeyEventFor(key, phase));
    input.DispatchEvent(InputEvent);
    input.DispatchEvent(ChangeEvent);
  }
}
