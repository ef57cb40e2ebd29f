/**
 * Platform-independent input values: the events the capture layer reports and
 * the hotkey descriptors that key the binding registry. Every type here has
 * structural equality, exactly as the derived `PartialEq`/`Eq`/`Hash` of the
 * Rust types, so two hotkeys are the same registry key iff they are equal values.
 */
module InputCapture {

  /** A signed 32-bit integer, as used for pointer coordinates. */
  newtype i32 = x: int | -0x8000_0000 <= x < 0x8000_0000

  /** An input event reported by the capture layer. */
  datatype InputEvent =
    | KeyPress(key: Key)
    | KeyRelease(key: Key)
    | MousePress(button: MouseButton)
    | MouseRelease(button: MouseButton)
    | MouseMove(x: i32, y: i32)

  /** The keyboard keys the system knows about. */
  datatype Key =
    | A | B | C | D | E | F | G | H | I | J | K | L | M
    | N | O | P | Q | R | S | T | U | V | W | X | Y | Z
    | Num0 | Num1 | Num2 | Num3 | Num4 | Num5 | Num6 | Num7 | Num8 | Num9
    | Ctrl | Shift | Alt | Meta
    | F1 | F2 | F3 | F4 | F5 | F6 | F7 | F8 | F9 | F10 | F11 | F12
    | Enter | Escape | Space | Tab | Backspace

  /** Mouse buttons; Button4 and Button5 are the side buttons. */
  datatype MouseButton = Left | Right | Middle | Button4 | Button5

  /** Modifiers that may accompany the trigger of a hotkey. */
  datatype Modifier = Ctrl | Shift | Alt | Meta

  /** The input that fires a hotkey. */
  datatype Trigger = Key(key: Key) | MouseButton(button: MouseButton)

  /** A hotkey: an ordered list of modifiers and a trigger. */
  datatype Hotkey = Hotkey(modifiers: seq<Modifier>, trigger: Trigger)

  /** `Hotkey::key`: a bare key without modifiers. */
  function HotkeyKey(key: Key): Hotkey {
    Hotkey([], Trigger.Key(key))
  }

  /** `Hotkey::mouse`: a bare mouse button without modifiers. */
  function HotkeyMouse(button: MouseButton): Hotkey {
    Hotkey([], Trigger.MouseButton(button))
  }

  /** `Hotkey::combo`: the given modifiers, copied in order, with a trigger. */
  function HotkeyCombo(modifiers: seq<Modifier>, trigger: Trigger): Hotkey {
    Hotkey(modifiers, trigger)
  }

  lemma KeyHasNoModifiers(key: Key)
    ensures HotkeyKey(key).modifiers == []
    ensures HotkeyKey(key).trigger == Trigger.Key(key)
  {
  }

  lemma MouseHasNoModifiers(button: MouseButton)
    ensures HotkeyMouse(button).modifiers == []
    ensures HotkeyMouse(button).trigger == Trigger.MouseButton(button)
  {
  }

  /** `combo` keeps the modifiers element for element and in order. */
  lemma ComboKeepsModifiers(modifiers: seq<Modifier>, trigger: Trigger)
    ensures |HotkeyCombo(modifiers, trigger).modifiers| == |modifiers|
    ensures forall i :: 0 <= i < |modifiers| ==> HotkeyCombo(modifiers, trigger).modifiers[i] == modifiers[i]
    ensures HotkeyCombo(modifiers, trigger).trigger == trigger
  {
  }

  /** A bare key hotkey is the combo with no modifiers. */
  lemma KeyIsEmptyCombo(key: Key)
    ensures HotkeyKey(key) == HotkeyCombo([], Trigger.Key(key))
  {
  }

  /** A bare mouse hotkey is the combo with no modifiers. */
  lemma MouseIsEmptyCombo(button: MouseButton)
    ensures HotkeyMouse(button) == HotkeyCombo([], Trigger.MouseButton(button))
  {
  }

  /** Key hotkeys and mouse hotkeys never coincide. */
  lemma KeyNeverMouse(key: Key, button: MouseButton)
    ensures HotkeyKey(key) != HotkeyMouse(button)
  {
  }

  /** Hotkey identity is structural: same modifier list (order included) and same trigger. */
  lemma ComboEquality(ms1: seq<Modifier>, t1: Trigger, ms2: seq<Modifier>, t2: Trigger)
    ensures HotkeyCombo(ms1, t1) == HotkeyCombo(ms2, t2) <==> ms1 == ms2 && t1 == t2
  {
  }

  /** The order of modifiers is part of a hotkey's identity. */
  lemma ModifierOrderMatters(trigger: Trigger)
    ensures HotkeyCombo([Modifier.Ctrl, Modifier.Shift], trigger)
         != HotkeyCombo([Modifier.Shift, Modifier.Ctrl], trigger)
  {
    assert HotkeyCombo([Modifier.Ctrl, Modifier.Shift], trigger).modifiers[0] == Modifier.Ctrl;
  }
}
