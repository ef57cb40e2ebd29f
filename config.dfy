/**
 * The configuration-as-code binding table: the user's bindings, built once as
 * a builder chain over the registry, and a gaming preset.
 */
module Config {
  import opened Wrappers
  import opened InputCapture
  import opened ActionExecutor
  import opened BindingEngine

  /**
   * The registered bindings: F1 presses Enter, mouse Button4 right-clicks,
   * and Ctrl+Shift+P runs a placeholder sequence of one 100 ms delay.
   */
  method RegisterAllBindings() returns (r: BindingRegistry)
    ensures fresh(r)
    ensures r.Len() == 3
    ensures r.GetAction(HotkeyKey(Key.F1)) == Some(PressKey(Key.Enter))
    ensures r.GetAction(HotkeyMouse(MouseButton.Button4)) == Some(Click(MouseButton.Right))
    ensures r.GetAction(HotkeyCombo([Modifier.Ctrl, Modifier.Shift], Trigger.Key(Key.P)))
         == Some(Sequence([Delay(100)]))
    ensures !r.IsRegistered(HotkeyCombo([Modifier.Shift, Modifier.Ctrl], Trigger.Key(Key.P)))
    ensures r.bindings.Keys == {HotkeyKey(Key.F1), HotkeyMouse(MouseButton.Button4),
                                HotkeyCombo([Modifier.Ctrl, Modifier.Shift], Trigger.Key(Key.P))}
  {
    ModifierOrderMatters(Trigger.Key(Key.P));
    r := new BindingRegistry();
    r := r.Bind(HotkeyKey(Key.F1), PressKey(Key.Enter));
    KeyNeverMouse(Key.F1, MouseButton.Button4);
    r := r.Bind(HotkeyMouse(MouseButton.Button4), Click(MouseButton.Right));
    assert HotkeyCombo([Modifier.Ctrl, Modifier.Shift], Trigger.Key(Key.P)).modifiers != [];
    r := r.Bind(HotkeyCombo([Modifier.Ctrl, Modifier.Shift], Trigger.Key(Key.P)), Sequence([Delay(100)]));
  }

  /** Hold mouse Button4 to right-click every 50 ms. */
  function RapidClickBinding(): (Hotkey, Action) {
    (HotkeyMouse(MouseButton.Button4),
     RepeatWhileHeld([Click(MouseButton.Right), Delay(50)], 50))
  }

  /** The F1 binding's action presses Enter and then releases it, and nothing else is issued. */
  lemma F1ActionPressesEnter(env: Env, h: seq<Step>)
    requires env.accepts(h, SimulateKey(Key.Enter, Press))
    requires env.accepts(h + [SimulateKey(Key.Enter, Press)], SimulateKey(Key.Enter, Release))
    ensures Execute(PressKey(Key.Enter), env, h)
         == Run([SimulateKey(Key.Enter, Press), SimulateKey(Key.Enter, Release)], Ok)
  {
  }

  /** The Ctrl+Shift+P placeholder only sleeps 100 ms, whatever the executor does. */
  lemma PaletteActionOnlySleeps(env: Env, h: seq<Step>)
    ensures Execute(Sequence([Delay(100)]), env, h) == Run([Sleep(100)], Ok)
  {
    SingletonSequence(Delay(100), env, h);
  }

  /**
   * The rapid-click preset is keyed on the same hotkey as the registered
   * Button4 binding, repeats a right click and a 50 ms delay every 50 ms,
   * and its action aborts without issuing anything, because
   * `RepeatWhileHeld` is not implemented.
   */
  lemma RapidClickIsUnimplemented(env: Env, h: seq<Step>)
    ensures RapidClickBinding().0 == HotkeyMouse(MouseButton.Button4)
    ensures RapidClickBinding().1.RepeatWhileHeld? && RapidClickBinding().1.interval == 50
    ensures RapidClickBinding().1.actions == [Click(MouseButton.Right), Delay(50)]
    ensures Execute(RapidClickBinding().1, env, h) == Run([], Panic)
  {
  }
}
