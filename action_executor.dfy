/**
 * The action interpreter. An `Action` tree is walked recursively and turned
 * into calls on an abstract input-simulation executor. The executor is not
 * modelled; it is replaced by an oracle (`Env`) that decides, given the calls
 * issued so far, whether the next call succeeds. The model records every call in
 * the order it is issued, and every sleep of the async runtime, as a trace.
 */
module ActionExecutor {
  import opened InputCapture

  /** Key or button state handed to the executor. */
  datatype InputState = Press | Release

  /**
   * One effect of the interpreter: a call of one of the four executor
   * primitives, or a sleep of the given number of milliseconds.
   */
  datatype Step =
    | SimulateKey(key: Key, state: InputState)
    | SimulateMouse(button: MouseButton, state: InputState)
    | MouseMoveAbs(x: i32, y: i32)
    | MouseMoveRel(dx: i32, dy: i32)
    | Sleep(ms: nat)

  /** High-level actions composed of executor primitives; durations are milliseconds. */
  datatype Action =
    | PressKey(key: Key)
    | Click(button: MouseButton)
    | HoldKey(key: Key)
    | ReleaseKey(key: Key)
    | Sequence(actions: seq<Action>)
    | RepeatWhileHeld(actions: seq<Action>, interval: nat)
    | Delay(duration: nat)
    | RandomDelay(min: nat, max: nat)
    | TypeText(text: string)

  /**
   * How an execution ends: `Ok`; `Err`, the single opaque error an executor
   * call may return; or `Panic`, the task aborting (an unimplemented action,
   * or an empty random range).
   */
  datatype Outcome = Ok | Err | Panic

  /** The calls and sleeps an execution issued, in order, and how it ended. */
  datatype Run = Run(trace: seq<Step>, outcome: Outcome)

  /**
   * The environment of an execution. `accepts(h, s)` says whether the executor
   * returns success for call `s` issued after the steps `h`; `draw(h)` is the
   * raw value the random number generator yields after the steps `h`.
   */
  datatype Env = Env(accepts: (seq<Step>, Step) -> bool, draw: seq<Step> -> nat)

  /** A step issued after `h` does not fail; sleeps never fail. */
  predicate Accepted(env: Env, h: seq<Step>, s: Step) {
    s.Sleep? || env.accepts(h, s)
  }

  /** Every step of `t`, issued after `h` and its predecessors in `t`, succeeded. */
  predicate AllAccepted(env: Env, h: seq<Step>, t: seq<Step>) {
    forall i | 0 <= i < |t| :: Accepted(env, h + t[..i], t[i])
  }

  /** No step of `t` moves the pointer. */
  predicate NoMoves(t: seq<Step>) {
    forall i | 0 <= i < |t| :: !t[i].MouseMoveAbs? && !t[i].MouseMoveRel?
  }

  /**
   * A tree whose execution cannot panic: it has no unimplemented node and
   * every random delay has a non-empty range.
   */
  predicate Supported(a: Action)
    decreases a
  {
    match a
    case Sequence(xs) => forall i | 0 <= i < |xs| :: Supported(xs[i])
    case RandomDelay(lo, hi) => lo <= hi
    case RepeatWhileHeld(_, _) => false
    case TypeText(_) => false
    case _ => true
  }

  /** Reduces a raw random value into the inclusive range `lo..=hi`. */
  function Sample(lo: nat, hi: nat, raw: nat): (ms: nat)
    requires lo <= hi
    ensures lo <= ms <= hi
  {
    lo + raw % (hi - lo + 1)
  }

  /** Issues one executor call after the steps `h`. */
  function Issue(env: Env, h: seq<Step>, s: Step): Run {
    Run([s], if env.accepts(h, s) then Ok else Err)
  }

  /** Runs `next` only when `first` succeeded: the `?` operator. */
  function AndThen(first: Run, next: Run): Run {
    if first.outcome == Ok then Run(first.trace + next.trace, next.outcome) else first
  }

  /** The steps `a` issues when executed after the steps `h`, and its outcome. */
  function Execute(a: Action, env: Env, h: seq<Step>): Run
    decreases a
  {
    match a
    case PressKey(k) =>
      AndThen(Issue(env, h, SimulateKey(k, Press)),
              Issue(env, h + [SimulateKey(k, Press)], SimulateKey(k, Release)))
    case Click(b) =>
      AndThen(Issue(env, h, SimulateMouse(b, Press)),
              Issue(env, h + [SimulateMouse(b, Press)], SimulateMouse(b, Release)))
    case HoldKey(k) => Issue(env, h, SimulateKey(k, Press))
    case ReleaseKey(k) => Issue(env, h, SimulateKey(k, Release))
    case Sequence(xs) => ExecuteAll(xs, env, h)
    case Delay(d) => Run([Sleep(d)], Ok)
    case RandomDelay(lo, hi) =>
      if lo <= hi then Run([Sleep(Sample(lo, hi, env.draw(h)))], Ok) else Run([], Panic)
    case RepeatWhileHeld(_, _) => Run([], Panic)
    case TypeText(_) => Run([], Panic)
  }

  /** The children of a `Sequence`, in order, stopping at the first that does not succeed. */
  function ExecuteAll(xs: seq<Action>, env: Env, h: seq<Step>): Run
    decreases xs
  {
    if xs == [] then Run([], Ok)
    else
      var first := Execute(xs[0], env, h);
      AndThen(first, ExecuteAll(xs[1..], env, h + first.trace))
  }

  /**
   * `Action::execute` as the step-by-step procedure it is: primitive calls
   * with early return on error, and a loop over the children of a sequence.
   */
  method Perform(a: Action, env: Env, h: seq<Step>) returns (run: Run)
    ensures run == Execute(a, env, h)
    decreases a
  {
    match a
    case PressKey(k) =>
      var press, release := SimulateKey(k, Press), SimulateKey(k, Release);
      if !env.accepts(h, press) {
        return Run([press], Err);
      }
      if !env.accepts(h + [press], release) {
        return Run([press, release], Err);
      }
      run := Run([press, release], Ok);
    case Click(b) =>
      var press, release := SimulateMouse(b, Press), SimulateMouse(b, Release);
      if !env.accepts(h, press) {
        return Run([press], Err);
      }
      if !env.accepts(h + [press], release) {
        return Run([press, release], Err);
      }
      run := Run([press, release], Ok);
    case HoldKey(k) =>
      var press := SimulateKey(k, Press);
      run := Run([press], if env.accepts(h, press) then Ok else Err);
    case ReleaseKey(k) =>
      var release := SimulateKey(k, Release);
      run := Run([release], if env.accepts(h, release) then Ok else Err);
    case Sequence(xs) =>
      var trace: seq<Step> := [];
      assert xs[0..] == xs && h + trace == h;
      assert trace + ExecuteAll(xs, env, h).trace == ExecuteAll(xs, env, h).trace;
      for i := 0 to |xs|
        invariant ExecuteAll(xs, env, h) == AndThen(Run(trace, Ok), ExecuteAll(xs[i..], env, h + trace))
      {
        var child := Perform(xs[i], env, h + trace);
        assert xs[i..][0] == xs[i] && xs[i..][1..] == xs[i + 1..];
        assert h + trace + child.trace == h + (trace + child.trace);
        if child.outcome != Ok {
          return Run(trace + child.trace, child.outcome);
        }
        trace := trace + child.trace;
      }
      run := Run(trace, Ok);
    case Delay(d) =>
      run := Run([Sleep(d)], Ok);
    case RandomDelay(lo, hi) =>
      if lo > hi {
        return Run([], Panic);
      }
      var ms := Sample(lo, hi, env.draw(h));
      run := Run([Sleep(ms)], Ok);
    case RepeatWhileHeld(_, _) =>
      run := Run([], Panic);
    case TypeText(_) =>
      run := Run([], Panic);
  }

  // ---------------------------------------------------------------------------
  // Primitive actions

  /** `PressKey` issues the press and, only if the press succeeded, the release. */
  lemma PressKeyPressesThenReleases(k: Key, env: Env, h: seq<Step>)
    ensures var r := Execute(PressKey(k), env, h);
      var press, release := SimulateKey(k, Press), SimulateKey(k, Release);
      && (if env.accepts(h, press) then r.trace == [press, release] else r.trace == [press])
      && (r.outcome == Ok <==> env.accepts(h, press) && env.accepts(h + [press], release))
      && r.outcome != Panic
  {
  }

  /** `Click` presses and then releases the same button; a failed press ends it. */
  lemma ClickPressesThenReleases(b: MouseButton, env: Env, h: seq<Step>)
    ensures var r := Execute(Click(b), env, h);
      var press, release := SimulateMouse(b, Press), SimulateMouse(b, Release);
      && (if env.accepts(h, press) then r.trace == [press, release] else r.trace == [press])
      && (r.outcome == Ok <==> env.accepts(h, press) && env.accepts(h + [press], release))
      && r.outcome != Panic
  {
  }

  /** `HoldKey` only presses and `ReleaseKey` only releases. */
  lemma HoldAndReleaseAreSingleCalls(k: Key, env: Env, h: seq<Step>)
    ensures Execute(HoldKey(k), env, h).trace == [SimulateKey(k, Press)]
    ensures Execute(HoldKey(k), env, h).outcome == Ok <==> env.accepts(h, SimulateKey(k, Press))
    ensures Execute(ReleaseKey(k), env, h).trace == [SimulateKey(k, Release)]
    ensures Execute(ReleaseKey(k), env, h).outcome == Ok <==> env.accepts(h, SimulateKey(k, Release))
  {
  }

  // ---------------------------------------------------------------------------
  // Delays

  /** `Delay` makes no executor call, sleeps its duration and succeeds. */
  lemma DelayOnlySleeps(d: nat, env: Env, h: seq<Step>)
    ensures Execute(Delay(d), env, h) == Run([Sleep(d)], Ok)
  {
  }

  /** With a non-empty range, `RandomDelay` sleeps once for a duration inside the inclusive range. */
  lemma RandomDelayWithinRange(lo: nat, hi: nat, env: Env, h: seq<Step>)
    requires lo <= hi
    ensures var r := Execute(RandomDelay(lo, hi), env, h);
      r.outcome == Ok && |r.trace| == 1 && r.trace[0].Sleep? && lo <= r.trace[0].ms <= hi
  {
  }

  /** A random source that always yields `d`. */
  function ConstantDraw(d: nat): seq<Step> -> nat {
    _ => d
  }

  /** Every duration of the inclusive range, both bounds included, is a possible sleep. */
  lemma RandomDelayCoversRange(lo: nat, hi: nat, n: nat, env: Env, h: seq<Step>)
    requires lo <= n <= hi
    ensures Execute(RandomDelay(lo, hi), Env(env.accepts, ConstantDraw(n - lo)), h) == Run([Sleep(n)], Ok)
  {
  }

  /** An empty random range panics before anything is issued. */
  lemma RandomDelayEmptyRangePanics(lo: nat, hi: nat, env: Env, h: seq<Step>)
    requires lo > hi
    ensures Execute(RandomDelay(lo, hi), env, h) == Run([], Panic)
  {
  }

  /** The unimplemented actions abort without issuing anything. */
  lemma UnimplementedActionsPanic(xs: seq<Action>, interval: nat, text: string, env: Env, h: seq<Step>)
    ensures Execute(RepeatWhileHeld(xs, interval), env, h) == Run([], Panic)
    ensures Execute(TypeText(text), env, h) == Run([], Panic)
  {
  }

  // ---------------------------------------------------------------------------
  // Sequences

  /** An empty sequence issues nothing and succeeds. */
  lemma EmptySequenceSucceeds(env: Env, h: seq<Step>)
    ensures Execute(Sequence([]), env, h) == Run([], Ok)
  {
  }

  /** A sequence of one action behaves as that action. */
  lemma SingletonSequence(x: Action, env: Env, h: seq<Step>)
    ensures ExecuteAll([x], env, h) == Execute(x, env, h)
  {
    assert [x][1..] == [];
  }

  /**
   * Running `xs + ys` runs `xs` and then, only if that succeeded, `ys` after
   * the steps of `xs`: traces concatenate in order and failures stop the rest.
   */
  lemma {:induction false} SequenceConcat(xs: seq<Action>, ys: seq<Action>, env: Env, h: seq<Step>)
    ensures var first := ExecuteAll(xs, env, h);
      ExecuteAll(xs + ys, env, h) == AndThen(first, ExecuteAll(ys, env, h + first.trace))
  {
    if xs == [] {
      assert xs + ys == ys && h + [] == h;
      assert [] + ExecuteAll(ys, env, h).trace == ExecuteAll(ys, env, h).trace;
    } else {
      var x := Execute(xs[0], env, h);
      assert (xs + ys)[0] == xs[0];
      assert (xs + ys)[1..] == xs[1..] + ys;
      SequenceConcat(xs[1..], ys, env, h + x.trace);
      var rest := ExecuteAll(xs[1..], env, h + x.trace);
      assert h + x.trace + rest.trace == h + (x.trace + rest.trace);
    }
  }

  /** On success, the trace of `xs + ys` is the trace of `xs` followed by that of `ys`. */
  lemma SequenceSuccessConcatenates(xs: seq<Action>, ys: seq<Action>, env: Env, h: seq<Step>)
    requires ExecuteAll(xs + ys, env, h).outcome == Ok
    ensures var first := ExecuteAll(xs, env, h);
      var second := ExecuteAll(ys, env, h + first.trace);
      && first.outcome == Ok && second.outcome == Ok
      && ExecuteAll(xs + ys, env, h).trace == first.trace + second.trace
  {
    SequenceConcat(xs, ys, env, h);
  }

  /**
   * If the children before position `i` succeed and child `i` does not, the
   * sequence ends with child `i`'s outcome and the later children issue nothing.
   */
  lemma SequenceStopsAtFirstFailure(xs: seq<Action>, i: nat, env: Env, h: seq<Step>)
    requires i < |xs|
    requires ExecuteAll(xs[..i], env, h).outcome == Ok
    requires Execute(xs[i], env, h + ExecuteAll(xs[..i], env, h).trace).outcome != Ok
    ensures var prefix := ExecuteAll(xs[..i], env, h);
      var child := Execute(xs[i], env, h + prefix.trace);
      ExecuteAll(xs, env, h) == Run(prefix.trace + child.trace, child.outcome)
  {
    var prefix := ExecuteAll(xs[..i], env, h);
    assert xs == xs[..i] + ([xs[i]] + xs[i + 1..]);
    SequenceConcat(xs[..i], [xs[i]] + xs[i + 1..], env, h);
    SequenceConcat([xs[i]], xs[i + 1..], env, h + prefix.trace);
    SingletonSequence(xs[i], env, h + prefix.trace);
  }

  // ---------------------------------------------------------------------------
  // Success exactly when every call succeeded

  /**
   * The way a run of a supported tree ends: success with every step accepted,
   * or an error whose last step is the first one that failed.
   */
  predicate Settled(env: Env, h: seq<Step>, r: Run) {
    || (r.outcome == Ok && AllAccepted(env, h, r.trace))
    || (&& r.outcome == Err
        && |r.trace| > 0
        && AllAccepted(env, h, r.trace[..|r.trace| - 1])
        && !Accepted(env, h + r.trace[..|r.trace| - 1], r.trace[|r.trace| - 1]))
  }

  lemma AllAcceptedConcat(env: Env, h: seq<Step>, t1: seq<Step>, t2: seq<Step>)
    ensures AllAccepted(env, h, t1 + t2) <==> AllAccepted(env, h, t1) && AllAccepted(env, h + t1, t2)
  {
    forall i | 0 <= i < |t1|
      ensures (t1 + t2)[..i] == t1[..i] && (t1 + t2)[i] == t1[i]
    {
    }
    forall j | 0 <= j < |t2|
      ensures h + (t1 + t2)[..|t1| + j] == (h + t1) + t2[..j] && (t1 + t2)[|t1| + j] == t2[j]
    {
      assert (t1 + t2)[..|t1| + j] == t1 + t2[..j];
    }
    if AllAccepted(env, h, t1 + t2) {
      forall i | 0 <= i < |t1| ensures Accepted(env, h + t1[..i], t1[i]) {
        assert Accepted(env, h + (t1 + t2)[..i], (t1 + t2)[i]);
      }
      forall j | 0 <= j < |t2| ensures Accepted(env, (h + t1) + t2[..j], t2[j]) {
        assert Accepted(env, h + (t1 + t2)[..|t1| + j], (t1 + t2)[|t1| + j]);
      }
    }
    if AllAccepted(env, h, t1) && AllAccepted(env, h + t1, t2) {
      forall i | 0 <= i < |t1 + t2| ensures Accepted(env, h + (t1 + t2)[..i], (t1 + t2)[i]) {
        if i < |t1| {
          assert Accepted(env, h + t1[..i], t1[i]);
        } else {
          assert Accepted(env, (h + t1) + t2[..i - |t1|], t2[i - |t1|]);
        }
      }
    }
  }

  lemma SettledAndThen(env: Env, h: seq<Step>, first: Run, next: Run)
    requires Settled(env, h, first)
    requires first.outcome == Ok ==> Settled(env, h + first.trace, next)
    ensures Settled(env, h, AndThen(first, next))
  {
    if first.outcome == Ok {
      var t := first.trace + next.trace;
      if next.outcome == Ok {
        AllAcceptedConcat(env, h, first.trace, next.trace);
      } else {
        var n := |next.trace|;
        assert t[..|t| - 1] == first.trace + next.trace[..n - 1];
        assert t[|t| - 1] == next.trace[n - 1];
        AllAcceptedConcat(env, h, first.trace, next.trace[..n - 1]);
        assert h + t[..|t| - 1] == (h + first.trace) + next.trace[..n - 1];
      }
    }
  }

  lemma SettledIssue(env: Env, h: seq<Step>, s: Step)
    requires !s.Sleep?
    ensures Settled(env, h, Issue(env, h, s))
  {
    assert [s][..0] == [];
    assert h + [s][..0] == h;
  }

  lemma {:induction false} SupportedSettles(a: Action, env: Env, h: seq<Step>)
    requires Supported(a)
    ensures Settled(env, h, Execute(a, env, h))
    decreases a
  {
    match a
    case PressKey(k) =>
      SettledIssue(env, h, SimulateKey(k, Press));
      SettledIssue(env, h + [SimulateKey(k, Press)], SimulateKey(k, Release));
      SettledAndThen(env, h, Issue(env, h, SimulateKey(k, Press)),
                     Issue(env, h + [SimulateKey(k, Press)], SimulateKey(k, Release)));
    case Click(b) =>
      SettledIssue(env, h, SimulateMouse(b, Press));
      SettledIssue(env, h + [SimulateMouse(b, Press)], SimulateMouse(b, Release));
      SettledAndThen(env, h, Issue(env, h, SimulateMouse(b, Press)),
                     Issue(env, h + [SimulateMouse(b, Press)], SimulateMouse(b, Release)));
    case HoldKey(k) => SettledIssue(env, h, SimulateKey(k, Press));
    case ReleaseKey(k) => SettledIssue(env, h, SimulateKey(k, Release));
    case Sequence(xs) => SupportedAllSettles(xs, env, h);
    case Delay(d) =>
      assert [Sleep(d)][..0] == [];
    case RandomDelay(lo, hi) =>
      assert [Sleep(Sample(lo, hi, env.draw(h)))][..0] == [];
  }

  lemma {:induction false} SupportedAllSettles(xs: seq<Action>, env: Env, h: seq<Step>)
    requires forall i | 0 <= i < |xs| :: Supported(xs[i])
    ensures Settled(env, h, ExecuteAll(xs, env, h))
    decreases xs
  {
    if xs == [] {
    } else {
      var first := Execute(xs[0], env, h);
      SupportedSettles(xs[0], env, h);
      SupportedAllSettles(xs[1..], env, h + first.trace);
      SettledAndThen(env, h, first, ExecuteAll(xs[1..], env, h + first.trace));
    }
  }

  /**
   * A tree free of unimplemented nodes and empty random ranges never panics,
   * and it succeeds exactly when every executor call it issued succeeded.
   * When it fails, the failing call is the last one issued.
   */
  lemma SupportedOkIffAllAccepted(a: Action, env: Env, h: seq<Step>)
    requires Supported(a)
    ensures var r := Execute(a, env, h);
      && r.outcome != Panic
      && (r.outcome == Ok <==> AllAccepted(env, h, r.trace))
      && (r.outcome == Err ==> |r.trace| > 0 && !Accepted(env, h + r.trace[..|r.trace| - 1], r.trace[|r.trace| - 1]))
  {
    SupportedSettles(a, env, h);
    var r := Execute(a, env, h);
    if r.outcome == Err {
      var n := |r.trace|;
      assert r.trace[..n][..n - 1] == r.trace[..n - 1];
      assert !Accepted(env, h + r.trace[..n - 1], r.trace[n - 1]);
    }
  }

  /** Only a tree with an unimplemented node or an empty random range can panic. */
  lemma PanicNeedsUnsupported(a: Action, env: Env, h: seq<Step>)
    requires Execute(a, env, h).outcome == Panic
    ensures !Supported(a)
  {
    if Supported(a) {
      SupportedSettles(a, env, h);
    }
  }

  // ---------------------------------------------------------------------------
  // The pointer is never moved

  lemma NoMovesConcat(t1: seq<Step>, t2: seq<Step>)
    requires NoMoves(t1) && NoMoves(t2)
    ensures NoMoves(t1 + t2)
  {
    forall i | 0 <= i < |t1 + t2| ensures !(t1 + t2)[i].MouseMoveAbs? && !(t1 + t2)[i].MouseMoveRel? {
      if i >= |t1| {
        assert (t1 + t2)[i] == t2[i - |t1|];
      }
    }
  }

  /** No action ever calls the pointer-move primitives of the executor. */
  lemma {:induction false} NeverMovesPointer(a: Action, env: Env, h: seq<Step>)
    ensures NoMoves(Execute(a, env, h).trace)
    decreases a
  {
    match a
    case PressKey(k) =>
    case Click(b) =>
    case Sequence(xs) => NeverMovesPointerAll(xs, env, h);
    case _ =>
  }

  lemma {:induction false} NeverMovesPointerAll(xs: seq<Action>, env: Env, h: seq<Step>)
    ensures NoMoves(ExecuteAll(xs, env, h).trace)
    decreases xs
  {
    if xs != [] {
      var first := Execute(xs[0], env, h);
      NeverMovesPointer(xs[0], env, h);
      NeverMovesPointerAll(xs[1..], env, h + first.trace);
      if first.outcome == Ok {
        NoMovesConcat(first.trace, ExecuteAll(xs[1..], env, h + first.trace).trace);
      }
    }
  }
}
