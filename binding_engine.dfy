/**
 * The binding engine: a registry from hotkeys to actions, a tracker of the
 * keys and buttons currently held, and the event processor that owns both.
 */
module BindingEngine {
  import opened Wrappers
  import opened InputCapture
  import opened ActionExecutor

  // ---------------------------------------------------------------------------
  // Binding registry

  /** A finite map from hotkeys to actions, filled builder-style. */
  class BindingRegistry {
    var bindings: map<Hotkey, Action>

    /** An empty registry. */
    constructor ()
      ensures bindings == map[]
      ensures Len() == 0
      ensures forall hotkey :: !IsRegistered(hotkey)
    {
      bindings := map[];
    }

    /**
     * Adds `hotkey -> action`, silently replacing any earlier action of that
     * hotkey, and hands the registry back for chaining.
     */
    method Bind(hotkey: Hotkey, action: Action) returns (r: BindingRegistry)
      modifies this
      ensures r == this
      ensures bindings == old(bindings)[hotkey := action]
      ensures GetAction(hotkey) == Some(action)
      ensures forall other :: other != hotkey ==> GetAction(other) == old(GetAction(other))
      ensures Len() == if old(IsRegistered(hotkey)) then old(Len()) else old(Len()) + 1
    {
      bindings := bindings[hotkey := action];
      r := this;
    }

    /** The action bound to `hotkey`, if any. */
    function GetAction(hotkey: Hotkey): Option<Action>
      reads this
    {
      if hotkey in bindings then Some(bindings[hotkey]) else None
    }

    /** Whether `hotkey` has a binding. */
    function IsRegistered(hotkey: Hotkey): (r: bool)
      reads this
      ensures r <==> GetAction(hotkey).Some?
    {
      hotkey in bindings
    }

    /** The number of hotkeys bound. */
    function Len(): nat
      reads this
    {
      |bindings|
    }
  }

  // ---------------------------------------------------------------------------
  // Vector operations used by the tracker

  /** No element occurs twice. */
  predicate NoDup<T(==)>(s: seq<T>) {
    forall i, j | 0 <= i < j < |s| :: s[i] != s[j]
  }

  /** Appends `x` unless it is already present (`contains` then `push`). */
  function PushIfAbsent<T(==)>(s: seq<T>, x: T): seq<T> {
    if x in s then s else s + [x]
  }

  /** Keeps exactly the elements different from `x`, in order (`retain(|y| y != x)`). */
  function Without<T(==)>(s: seq<T>, x: T): (r: seq<T>)
    ensures |r| <= |s|
  {
    if s == [] then []
    else (if s[0] == x then [] else [s[0]]) + Without(s[1..], x)
  }

  lemma {:induction false} WithoutMembers<T>(s: seq<T>, x: T)
    ensures forall y :: y in Without(s, x) <==> y in s && y != x
  {
    if s != [] {
      WithoutMembers(s[1..], x);
      assert s == [s[0]] + s[1..];
    }
  }

  /** Removing distributes over concatenation, so the survivors keep their order. */
  lemma {:induction false} WithoutConcat<T>(s: seq<T>, t: seq<T>, x: T)
    ensures Without(s + t, x) == Without(s, x) + Without(t, x)
  {
    if s == [] {
      assert s + t == t;
    } else {
      assert (s + t)[0] == s[0];
      assert (s + t)[1..] == s[1..] + t;
      WithoutConcat(s[1..], t, x);
    }
  }

  lemma {:induction false} WithoutAbsent<T>(s: seq<T>, x: T)
    requires x !in s
    ensures Without(s, x) == s
  {
    if s != [] {
      WithoutAbsent(s[1..], x);
      assert s == [s[0]] + s[1..];
    }
  }

  lemma {:induction false} WithoutNoDup<T>(s: seq<T>, x: T)
    requires NoDup(s)
    ensures NoDup(Without(s, x))
  {
    if s != [] {
      assert NoDup(s[1..]) by {
        forall i, j | 0 <= i < j < |s[1..]| ensures s[1..][i] != s[1..][j] {
          assert s[1..][i] == s[i + 1] && s[1..][j] == s[j + 1];
        }
      }
      WithoutNoDup(s[1..], x);
      WithoutMembers(s[1..], x);
      var rest := Without(s[1..], x);
      if s[0] != x {
        assert s[0] !in s[1..] by {
          forall j | 0 <= j < |s[1..]| ensures s[1..][j] != s[0] {
            assert s[1..][j] == s[j + 1];
          }
        }
        assert s[0] !in rest;
        var r := [s[0]] + rest;
        forall i, j | 0 <= i < j < |r| ensures r[i] != r[j] {
          if i == 0 {
            assert r[j] == rest[j - 1];
          } else {
            assert r[i] == rest[i - 1] && r[j] == rest[j - 1];
          }
        }
      } else {
        assert [] + rest == rest;
      }
    }
  }

  lemma PushIfAbsentNoDup<T>(s: seq<T>, x: T)
    requires NoDup(s)
    ensures NoDup(PushIfAbsent(s, x))
    ensures x in PushIfAbsent(s, x)
  {
    if x !in s {
      var r := s + [x];
      forall i, j | 0 <= i < j < |r| ensures r[i] != r[j] {
        if j == |s| {
          assert r[i] == s[i];
        }
      }
    }
  }

  // ---------------------------------------------------------------------------
  // State tracker

  /** The keys and buttons held, in the order they were first pressed. */
  datatype Held = Held(keys: seq<Key>, buttons: seq<MouseButton>)

  /** The effect of one event on the held keys and buttons. */
  function Apply(s: Held, e: InputEvent): Held {
    match e
    case KeyPress(k) => s.(keys := PushIfAbsent(s.keys, k))
    case KeyRelease(k) => s.(keys := Without(s.keys, k))
    case MousePress(b) => s.(buttons := PushIfAbsent(s.buttons, b))
    case MouseRelease(b) => s.(buttons := Without(s.buttons, b))
    case MouseMove(_, _) => s
  }

  /** Held lists never contain duplicates. */
  predicate Distinct(s: Held) {
    NoDup(s.keys) && NoDup(s.buttons)
  }

  /** Which keys and buttons are currently held down. */
  class StateTracker {
    var heldKeys: seq<Key>
    var heldButtons: seq<MouseButton>

    ghost predicate Valid()
      reads this
    {
      Distinct(View())
    }

    /** The abstract value of the tracker. */
    function View(): Held
      reads this
    {
      Held(heldKeys, heldButtons)
    }

    /** A tracker with nothing held. */
    constructor ()
      ensures Valid()
      ensures View() == Held([], [])
    {
      heldKeys := [];
      heldButtons := [];
    }

    /** Records one event: presses add if absent, releases remove, moves do nothing. */
    method Update(e: InputEvent)
      requires Valid()
      modifies this
      ensures Valid()
      ensures View() == Apply(old(View()), e)
      ensures e.KeyPress? ==> IsKeyHeld(e.key)
      ensures e.KeyRelease? ==> !IsKeyHeld(e.key)
      ensures e.MousePress? ==> IsButtonHeld(e.button)
      ensures e.MouseRelease? ==> !IsButtonHeld(e.button)
    {
      ApplyKeepsDistinct(View(), e);
      match e
      case KeyPress(k) =>
        if k !in heldKeys {
          heldKeys := heldKeys + [k];
        }
      case KeyRelease(k) =>
        WithoutMembers(heldKeys, k);
        heldKeys := Without(heldKeys, k);
      case MousePress(b) =>
        if b !in heldButtons {
          heldButtons := heldButtons + [b];
        }
      case MouseRelease(b) =>
        WithoutMembers(heldButtons, b);
        heldButtons := Without(heldButtons, b);
      case MouseMove(_, _) =>
    }

    /** Whether `key` is currently held. */
    function IsKeyHeld(key: Key): bool
      reads this
    {
      key in heldKeys
    }

    /** Whether `button` is currently held. */
    function IsButtonHeld(button: MouseButton): bool
      reads this
    {
      button in heldButtons
    }
  }

  /** Updates keep the held lists duplicate-free. */
  lemma ApplyKeepsDistinct(s: Held, e: InputEvent)
    requires Distinct(s)
    ensures Distinct(Apply(s, e))
  {
    match e
    case KeyPress(k) => PushIfAbsentNoDup(s.keys, k);
    case KeyRelease(k) => WithoutNoDup(s.keys, k);
    case MousePress(b) => PushIfAbsentNoDup(s.buttons, b);
    case MouseRelease(b) => WithoutNoDup(s.buttons, b);
    case MouseMove(_, _) =>
  }

  /** A press marks its key or button as held; pressing something already held changes nothing. */
  lemma PressMarksHeld(s: Held, k: Key, b: MouseButton)
    ensures k in Apply(s, KeyPress(k)).keys
    ensures k in s.keys ==> Apply(s, KeyPress(k)) == s
    ensures b in Apply(s, MousePress(b)).buttons
    ensures b in s.buttons ==> Apply(s, MousePress(b)) == s
  {
  }

  /** Pressing twice is the same as pressing once. */
  lemma PressIdempotent(s: Held, k: Key, b: MouseButton)
    ensures Apply(Apply(s, KeyPress(k)), KeyPress(k)) == Apply(s, KeyPress(k))
    ensures Apply(Apply(s, MousePress(b)), MousePress(b)) == Apply(s, MousePress(b))
  {
  }

  /** A release clears its key or button and every other one keeps its held status. */
  lemma ReleaseClearsOnlyItself(s: Held, k: Key, b: MouseButton)
    ensures k !in Apply(s, KeyRelease(k)).keys
    ensures forall j :: j != k ==> (j in Apply(s, KeyRelease(k)).keys <==> j in s.keys)
    ensures b !in Apply(s, MouseRelease(b)).buttons
    ensures forall c :: c != b ==> (c in Apply(s, MouseRelease(b)).buttons <==> c in s.buttons)
  {
    WithoutMembers(s.keys, k);
    WithoutMembers(s.buttons, b);
  }

  /**
   * In a duplicate-free list of held keys, a key release cuts out exactly the
   * released key: the keys before and after it stay, in their order.
   */
  lemma KeyReleaseKeepsOrder(s: Held, k: Key, before: seq<Key>, after: seq<Key>)
    requires NoDup(s.keys)
    requires s.keys == before + [k] + after
    ensures Apply(s, KeyRelease(k)).keys == before + after
  {
    CutOut(before, k, after);
  }

  /** The same for a mouse release on a duplicate-free list of held buttons. */
  lemma ButtonReleaseKeepsOrder(s: Held, b: MouseButton, below: seq<MouseButton>, above: seq<MouseButton>)
    requires NoDup(s.buttons)
    requires s.buttons == below + [b] + above
    ensures Apply(s, MouseRelease(b)).buttons == below + above
  {
    CutOut(below, b, above);
  }

  lemma CutOut<T>(before: seq<T>, x: T, after: seq<T>)
    requires NoDup(before + [x] + after)
    ensures Without(before + [x] + after, x) == before + after
  {
    var s := before + [x] + after;
    assert x !in before by {
      forall i | 0 <= i < |before| ensures before[i] != x {
        assert s[i] == before[i] && s[|before|] == x;
      }
    }
    assert x !in after by {
      forall i | 0 <= i < |after| ensures after[i] != x {
        assert s[|before| + 1 + i] == after[i] && s[|before|] == x;
      }
    }
    WithoutConcat(before + [x], after, x);
    WithoutConcat(before, [x], x);
    WithoutAbsent(before, x);
    WithoutAbsent(after, x);
    assert Without([x], x) == [] by {
      assert [x][1..] == [];
    }
  }

  /** Key events leave the buttons alone, mouse events leave the keys alone, moves change nothing. */
  lemma EventsStayInTheirLane(s: Held, e: InputEvent)
    ensures (e.KeyPress? || e.KeyRelease?) ==> Apply(s, e).buttons == s.buttons
    ensures (e.MousePress? || e.MouseRelease?) ==> Apply(s, e).keys == s.keys
    ensures e.MouseMove? ==> Apply(s, e) == s
  {
  }

  // ---------------------------------------------------------------------------
  // Event processor

  /** Owns the registry and a tracker; matching events to bindings is not implemented. */
  class EventProcessor {
    const registry: BindingRegistry
    const state: StateTracker

    ghost predicate Valid()
      reads this, state
    {
      state.Valid()
    }

    /** A processor over `registry` with a fresh tracker. */
    constructor (registry: BindingRegistry)
      ensures this.registry == registry
      ensures fresh(state)
      ensures Valid()
      ensures state.View() == Held([], [])
    {
      this.registry := registry;
      state := new StateTracker();
    }

    /** Feeds the event to the tracker and reports no matching action. */
    method ProcessEvent(e: InputEvent) returns (r: Option<Action>)
      requires Valid()
      modifies state
      ensures Valid()
      ensures state.View() == Apply(old(state.View()), e)
      ensures unchanged(registry)
      ensures r == None
    {
      state.Update(e);
      r := None;
    }
  }
}
