# HandPlusPlus core, modelled in Dafny

HandPlusPlus is a keyboard and mouse automation tool. Hotkeys (a key or mouse
button, optionally with modifiers) are bound to actions (press a key, click,
sequences, delays), and an interpreter turns an action into calls on a
platform input-simulation executor. This project models the parts of the
repository that contain real logic and proves properties of them:

- **Input values** (`input_capture.dfy`, module `InputCapture`): `InputEvent`,
  `Key`, `MouseButton`, `Modifier`, `Trigger` and `Hotkey` as datatypes with
  structural equality. It also holds the constructors `Hotkey::key`,
  `Hotkey::mouse` and `Hotkey::combo`, written as `HotkeyKey`, `HotkeyMouse`
  and `HotkeyCombo`.
- **Action interpreter** (`action_executor.dfy`, module `ActionExecutor`):
  the `Action` tree and `InputState`. The executor trait becomes an oracle
  `Env`: given the steps issued so far, it says whether the next executor call
  succeeds, and it supplies the raw value of the random number generator.
  `Execute`/`ExecuteAll` give the trace of executor calls and sleeps that an
  action issues, and how the run ends (`Ok`, `Err`, or `Panic`). `Perform` is
  the step-by-step procedure: early returns for `?` and a loop over the
  children of a `Sequence`. It is proved equal to `Execute`.
- **Binding engine** (`binding_engine.dfy`, module `BindingEngine`):
  - `BindingRegistry` is a class over a `map<Hotkey, Action>`.
  - `StateTracker` is a class over two lists of held keys and buttons. Its
    abstract value is a `Held`, and `Apply` specifies one update.
  - `EventProcessor` owns a registry and a tracker.
  - `Without(s, x)` models `Vec::retain` keeping the elements other than `x`. `PushIfAbsent` models
    `contains` followed by `push`.
- **Configuration** (`config.dfy`, module `Config`): the concrete binding
  table built by `register_all_bindings`, and the `rapid_click_binding`
  preset.
- `wrappers.dfy` holds `Option`.

Durations are natural numbers of milliseconds. `RandomDelay { min, max }`
draws from the inclusive range `min..=max` as `min + raw % (max - min + 1)`,
where `raw` comes from the environment.

A panic is modelled in two places:

- `RepeatWhileHeld` and `TypeText` are `todo!()` in the code.
- `gen_range` is called on an empty range (`min > max`). The `rand` crate
  panics there. That crate is not part of this model; the behaviour is its
  documented one.

Where the intended design and the code disagree, the model follows the code:

- Binding a hotkey twice silently replaces its action. There is no
  duplicate-trigger error.
- There is no per-hotkey activation state machine, cancellation token or
  on-release tail.
- The random delay range includes both ends, not `[min, max)`.
- `min == max` is allowed, and `min > max` panics at execution time rather
  than being rejected when the binding is built.
- No action moves the pointer.

## Model

| member | source | states |
|---|---|---|
| `InputCapture.HotkeyKey` | crates/input-capture/src/lib.rs:67-72 | definition of `Hotkey::key`; its properties are stated by `KeyHasNoModifiers`, `KeyIsEmptyCombo` and `KeyNeverMouse` |
| `InputCapture.HotkeyMouse` | crates/input-capture/src/lib.rs:74-79 | definition of `Hotkey::mouse`; its properties are stated by `MouseHasNoModifiers`, `MouseIsEmptyCombo` and `KeyNeverMouse` |
| `InputCapture.HotkeyCombo` | crates/input-capture/src/lib.rs:81-86 | definition of `Hotkey::combo`; its properties are stated by `ComboKeepsModifiers`, `ComboEquality` and `ModifierOrderMatters` |
| `ActionExecutor.Execute` | crates/action-executor/src/lib.rs:65-112 | definition of `Action::execute` as a trace and an outcome; its properties are stated by `Perform` and the lemmas below |
| `ActionExecutor.ExecuteAll` | crates/action-executor/src/lib.rs:87-91 | definition of the `Sequence` loop; its properties are stated by `SequenceConcat`, `SequenceStopsAtFirstFailure` and `SupportedAllSettles` |
| `InputCapture.KeyHasNoModifiers` | crates/input-capture/src/lib.rs:67-72 | `Hotkey::key(k)` has no modifiers and trigger `Trigger::Key(k)` |
| `InputCapture.MouseHasNoModifiers` | crates/input-capture/src/lib.rs:74-79 | `Hotkey::mouse(b)` has no modifiers and trigger `Trigger::MouseButton(b)` |
| `InputCapture.ComboKeepsModifiers` | crates/input-capture/src/lib.rs:81-86 | `Hotkey::combo(ms, t)` keeps `ms` element for element, in order, and uses trigger `t` |
| `InputCapture.KeyIsEmptyCombo` | crates/input-capture/src/lib.rs:67-86 | `Hotkey::key(k)` equals `Hotkey::combo([], Key(k))` |
| `InputCapture.MouseIsEmptyCombo` | crates/input-capture/src/lib.rs:74-86 | `Hotkey::mouse(b)` equals `Hotkey::combo([], MouseButton(b))` |
| `InputCapture.KeyNeverMouse` | crates/input-capture/src/lib.rs:60-79 | no key hotkey equals a mouse hotkey |
| `InputCapture.ComboEquality` | crates/input-capture/src/lib.rs:53-64 | two combos are equal exactly when their modifier lists and triggers are equal (derived equality) |
| `InputCapture.ModifierOrderMatters` | crates/input-capture/src/lib.rs:54-58 | `combo([Ctrl, Shift], t)` differs from `combo([Shift, Ctrl], t)` |
| `ActionExecutor.Perform` | crates/action-executor/src/lib.rs:65-112 | the imperative interpreter, with its early returns on error and its loop over a sequence's children, issues exactly the trace and outcome of `Execute` |
| `ActionExecutor.Sample` | crates/action-executor/src/lib.rs:95-98 | the drawn delay lies in the inclusive range `min..=max` |
| `ActionExecutor.PressKeyPressesThenReleases` | crates/action-executor/src/lib.rs:73-76 | `PressKey(k)` issues key-press `k` and then, only if that succeeded, key-release `k`, and nothing else; it is `Ok` exactly when both succeed; a failed press returns the error without the release |
| `ActionExecutor.ClickPressesThenReleases` | crates/action-executor/src/lib.rs:77-80 | `Click(b)` issues mouse-press `b` and then, only if that succeeded, mouse-release of the same `b`; `Ok` exactly when both succeed |
| `ActionExecutor.HoldAndReleaseAreSingleCalls` | crates/action-executor/src/lib.rs:81-86 | `HoldKey(k)` issues only a press of `k`, `ReleaseKey(k)` only a release, each `Ok` exactly when that call succeeds |
| `ActionExecutor.DelayOnlySleeps` | crates/action-executor/src/lib.rs:92-94 | `Delay(d)` makes no executor call, sleeps `d` ms and returns `Ok` |
| `ActionExecutor.RandomDelayWithinRange` | crates/action-executor/src/lib.rs:95-98 | with `min <= max`, `RandomDelay` sleeps once, for `n` ms with `min <= n <= max`, and returns `Ok` |
| `ActionExecutor.RandomDelayCoversRange` | crates/action-executor/src/lib.rs:97 | every `n` with `min <= n <= max` is the sleep for some random value, so both bounds are reachable |
| `ActionExecutor.RandomDelayEmptyRangePanics` | crates/action-executor/src/lib.rs:97 | with `min > max`, the sampling panics before anything is issued |
| `ActionExecutor.UnimplementedActionsPanic` | crates/action-executor/src/lib.rs:100-107 | `RepeatWhileHeld` and `TypeText` abort (`todo!()`) without issuing any call |
| `ActionExecutor.EmptySequenceSucceeds` | crates/action-executor/src/lib.rs:87-91 | an empty `Sequence` issues nothing and returns `Ok` |
| `ActionExecutor.SingletonSequence` | crates/action-executor/src/lib.rs:87-90 | a one-element sequence behaves exactly as its element |
| `ActionExecutor.SequenceConcat` | crates/action-executor/src/lib.rs:87-90 | running `xs + ys` runs `xs`, and only when that returned `Ok`, runs `ys` after `xs`'s calls; traces concatenate in order, and an error from `xs` is the result |
| `ActionExecutor.SequenceSuccessConcatenates` | crates/action-executor/src/lib.rs:87-91 | when `xs + ys` succeeds, both parts succeeded and its trace is the trace of `xs` followed by that of `ys` |
| `ActionExecutor.SequenceStopsAtFirstFailure` | crates/action-executor/src/lib.rs:88-90 | if the children before `i` succeed and child `i` does not, the sequence returns child `i`'s outcome and the later children issue no calls |
| `ActionExecutor.SupportedSettles` | crates/action-executor/src/lib.rs:71-110 | a tree free of unimplemented nodes and empty random ranges either returns `Ok` with every call accepted, or `Err` with every call but the last accepted and the last one failed |
| `ActionExecutor.SupportedAllSettles` | crates/action-executor/src/lib.rs:87-90 | the same for the children of a sequence |
| `ActionExecutor.SupportedOkIffAllAccepted` | crates/action-executor/src/lib.rs:71-110 | such a tree never panics, and returns `Ok` exactly when every executor call it issued succeeded |
| `ActionExecutor.PanicNeedsUnsupported` | crates/action-executor/src/lib.rs:95-107 | a panic only comes from an unimplemented node or an empty random range |
| `ActionExecutor.NeverMovesPointer` | crates/action-executor/src/lib.rs:71-110 | no action ever calls `mouse_move_abs` or `mouse_move_rel` |
| `ActionExecutor.NeverMovesPointerAll` | crates/action-executor/src/lib.rs:87-90 | the same for the children of a sequence |
| `BindingEngine.BindingRegistry.GetAction` | crates/binding-engine/src/lib.rs:25-27 | definition of `get_action`; its properties are stated by `Bind`, `IsRegistered` and the constructor |
| `BindingEngine.BindingRegistry.Len` | crates/binding-engine/src/lib.rs:35-37 | definition of `len`; its properties are stated by `Bind` and the constructor |
| `BindingEngine.PushIfAbsent` | crates/binding-engine/src/lib.rs:59-61 | definition of `contains` then `push`; its properties are stated by `PushIfAbsentNoDup` and `PressMarksHeld` |
| `BindingEngine.Without` | crates/binding-engine/src/lib.rs:64 | definition of `retain` keeping the elements other than `x`; never longer than its input; its properties are stated by `WithoutMembers`, `WithoutConcat`, `WithoutAbsent` and `WithoutNoDup` |
| `BindingEngine.Apply` | crates/binding-engine/src/lib.rs:56-76 | definition of one `update` on the held lists; its properties are stated by `ApplyKeepsDistinct`, `PressMarksHeld`, `PressIdempotent`, `ReleaseClearsOnlyItself`, the two release-order lemmas and `EventsStayInTheirLane` |
| `BindingEngine.StateTracker.IsKeyHeld` | crates/binding-engine/src/lib.rs:79-81 | definition of `is_key_held`; its properties are stated by `StateTracker.Update` |
| `BindingEngine.StateTracker.IsButtonHeld` | crates/binding-engine/src/lib.rs:84-86 | definition of `is_button_held`; its properties are stated by `StateTracker.Update` |
| `BindingEngine.BindingRegistry.constructor` | crates/binding-engine/src/lib.rs:12-16 | a new registry has length 0 and no hotkey is registered |
| `BindingEngine.BindingRegistry.Bind` | crates/binding-engine/src/lib.rs:19-22 | afterwards `get_action(h)` is `Some(a)` and every other hotkey's mapping is unchanged (the last bind wins); the length stays the same for an already registered hotkey and grows by 1 otherwise; the registry itself is returned |
| `BindingEngine.BindingRegistry.IsRegistered` | crates/binding-engine/src/lib.rs:24-32 | `is_registered(h)` holds exactly when `get_action(h)` is `Some` |
| `BindingEngine.WithoutMembers` | crates/binding-engine/src/lib.rs:63-65 | after retaining only the elements other than `x` an element is present exactly when it was present and differs from `x` |
| `BindingEngine.WithoutConcat` | crates/binding-engine/src/lib.rs:63-65 | `retain` works piecewise over a concatenation, so the survivors keep their relative order |
| `BindingEngine.WithoutAbsent` | crates/binding-engine/src/lib.rs:63-65 | retaining away an absent element changes nothing |
| `BindingEngine.WithoutNoDup` | crates/binding-engine/src/lib.rs:63-73 | `retain` keeps a duplicate-free list duplicate-free |
| `BindingEngine.PushIfAbsentNoDup` | crates/binding-engine/src/lib.rs:58-62 | push-if-absent keeps the list duplicate-free and leaves the element present |
| `BindingEngine.StateTracker.constructor` | crates/binding-engine/src/lib.rs:48-53 | a new tracker holds no keys and no buttons |
| `BindingEngine.StateTracker.Update` | crates/binding-engine/src/lib.rs:56-76 | the held lists become `Apply` of the old ones and stay duplicate-free; after a press the key or button is held, after a release it is not |
| `BindingEngine.ApplyKeepsDistinct` | crates/binding-engine/src/lib.rs:56-76 | no event introduces a duplicate into the held lists |
| `BindingEngine.PressMarksHeld` | crates/binding-engine/src/lib.rs:58-70 | after a key or mouse press the key or button is held; a press of something already held changes nothing |
| `BindingEngine.PressIdempotent` | crates/binding-engine/src/lib.rs:58-70 | pressing the same key or button twice is the same as pressing it once |
| `BindingEngine.ReleaseClearsOnlyItself` | crates/binding-engine/src/lib.rs:63-73 | after a release the key or button is no longer held, and every other one keeps its held status |
| `BindingEngine.KeyReleaseKeepsOrder` | crates/binding-engine/src/lib.rs:63-65 | in a duplicate-free list of held keys, a key release removes exactly that key, and the keys before and after it keep their order; no condition on the held buttons |
| `BindingEngine.ButtonReleaseKeepsOrder` | crates/binding-engine/src/lib.rs:71-73 | the same for a mouse release on the held buttons; no condition on the held keys |
| `BindingEngine.EventsStayInTheirLane` | crates/binding-engine/src/lib.rs:56-75 | key events never change the held buttons, mouse events never change the held keys, and `MouseMove` changes nothing |
| `BindingEngine.EventProcessor.constructor` | crates/binding-engine/src/lib.rs:96-101 | a processor keeps the given registry and starts with an empty tracker |
| `BindingEngine.EventProcessor.ProcessEvent` | crates/binding-engine/src/lib.rs:104-111 | the tracker changes exactly as `update(e)` specifies, the registry is unchanged, and the result is `None` |
| `Config.RegisterAllBindings` | crates/config/src/lib.rs:10-33 | exactly three hotkeys are registered, so the length is 3: F1 maps to `PressKey(Enter)`, Button4 maps to `Click(Right)`, and `combo([Ctrl, Shift], Key(P))` maps to `Sequence([Delay(100 ms)])`; `combo([Shift, Ctrl], Key(P))` is not registered |
| `Config.F1ActionPressesEnter` | crates/config/src/lib.rs:13-16 | executing F1's action issues exactly an Enter press and then an Enter release, and succeeds when both calls do |
| `Config.PaletteActionOnlySleeps` | crates/config/src/lib.rs:22-32 | the Ctrl+Shift+P placeholder makes no executor call and only sleeps 100 ms |
| `Config.RapidClickBinding` | crates/config/src/lib.rs:39-50 | definition of `rapid_click_binding`; its properties are stated by `RapidClickIsUnimplemented` |
| `Config.RapidClickIsUnimplemented` | crates/config/src/lib.rs:39-50 | the rapid-click preset is keyed on Button4 and is `RepeatWhileHeld` over `[Click(Right), Delay(50 ms)]` with a 50 ms interval; executing it aborts without any call, since `RepeatWhileHeld` is unimplemented |

## Left out

- Platform back-ends (`windows_impl`, `linux_impl`, `platform`, in both the executor and capture crates): foreign I/O over SendInput, XTest, hooks and X11, all `todo!()`.
- The `InputCapture` trait (`register_hotkey`, `event_stream`, `stop`): an I/O source with no logic.
- The executor's own behaviour: it is an oracle over the calls issued so far. Its error payload (`anyhow::Error`) is a single opaque `Err`.
- Real time: `tokio::time::sleep` is a recorded `Sleep` step. Nothing measures elapsed time.
- Randomness: `rand::thread_rng()` is a raw value supplied by the environment. The model does not capture the uniform distribution, only the range.
- Duration bounds: a `Duration` is an unbounded natural number of milliseconds. Sub-millisecond parts, which `as_millis` truncates, are not modelled. A drawn value above `u64::MAX` ms is not modelled either: there the `as u64` cast at crates/action-executor/src/lib.rs:98 wraps, while the model keeps the full value. `Duration`'s own upper bound is not modelled.
- Async machinery (`Pin<Box<dyn Future>>`, `Send + Sync`): execution is sequential, and the recorded history stands in for the executor state that earlier calls leave behind.
- The `RepeatWhileHeld` and `TypeText` semantics: the code leaves them unimplemented, so the model gives them no looping, cancellation or character mapping.
- `EventProcessor::process_event` hotkey matching: the code does not implement it and always returns `None`.
- `BindingRegistry::len`: a `usize` in the code and an unbounded `nat` here; overflow is unreachable for any table that fits in memory.
- `Config.RegisterAllBindings`: a method, because it returns a freshly built registry object. The facts about its entries are therefore stated in its postconditions, not as lemmas.
- crates/handplusplus/src/main.rs: logging set-up and TODO comments only.
