/** Whatever fails, every mode that may be on is still going to be undone. */
module TerminalSafety {
  import opened Wrappers
  import opened TerminalModes

  ghost predicate Safe(s: Lifecycle) {
    forall mode :: mode in s.device.on ==> s.owed.Owes(mode)
  }

  // ----- runs -----

  datatype Action =
    | Activate
    | ActivateSmall
    | SuppressKeyboard
    | SetMouseMode(mouse: bool, scroll: bool)
    | Hide
    | Reveal
    | Modes
    | All

  function Act(script: Script, s: Lifecycle, action: Action): (Lifecycle, Result<(), IoError>) {
    match action
    case Activate => ActivateMain(script, s)
    case ActivateSmall => ActivateMinimal(script, s)
    case SuppressKeyboard => (s.(suppressKeyboard := true), Ok(()))
    case SetMouseMode(mouse, scroll) => ApplyMouseMode(script, s, mouse, scroll)
    case Hide => HideCursor(script, s)
    case Reveal => DisableMode(script, s, HiddenCursor)
    case Modes => RestoreModes(script, s)
    case All => RestoreAll(script, s)
  }

  function ActAll(script: Script, s: Lifecycle, actions: seq<Action>): Lifecycle {
    if actions == [] then s
    else Act(script, ActAll(script, s, actions[..|actions| - 1]), actions[|actions| - 1]).0
  }

  const OFF := Lifecycle(false, NOTHING_OWED, Device({}, []))

  // ----- every step is safe -----

  lemma {:induction false} EnableModesIsSafe(script: Script, s: Lifecycle, modes: seq<Mode>)
    requires Safe(s)
    ensures Safe(EnableModes(script, s, modes).0)
    decreases |modes|
  {
    if modes != [] {
      EnableModesIsSafe(script, EnableMode(script, s, modes[0]).0, modes[1..]);
    }
  }

  lemma {:induction false} RestoreEachIsSafe(script: Script, s: Lifecycle, modes: seq<Mode>, first: Option<IoError>)
    requires Safe(s)
    ensures Safe(RestoreEach(script, s, modes, first).0)
    decreases |modes|
  {
    if modes != [] {
      var (s', first') := RestoreMode(script, s, modes[0], first);
      RestoreEachIsSafe(script, s', modes[1..], first');
    }
  }

  lemma EnableKeyboardIsSafe(script: Script, s: Lifecycle)
    requires Safe(s)
    ensures Safe(EnableKeyboard(script, s))
  {
    hide Obligations.With;
    assert s.owed.keyboardEnhancement == s.owed.Owes(KeyboardEnhancement);
  }

  lemma ActivateMainStepsAreSafe(script: Script, s: Lifecycle)
    requires Safe(s)
    ensures Safe(ActivateMainSteps(script, s).0)
  {
    hide Obligations.Owes;
    hide Obligations.With;
    EnableModesIsSafe(script, s, [RawMode, AlternateScreen]);
    var s1 := EnableModes(script, s, [RawMode, AlternateScreen]).0;
    var s2 := ForceDisableMode(script, s1, AlternateScroll).0;
    assert Safe(s2);
    EnableModesIsSafe(script, s2, [MouseCapture, BracketedPaste]);
    var s3 := EnableModes(script, s2, [MouseCapture, BracketedPaste]).0;
    EnableKeyboardIsSafe(script, s3);
  }

  lemma ApplyMouseModeIsSafe(script: Script, s: Lifecycle, mouse: bool, scroll: bool)
    requires Safe(s)
    ensures Safe(ApplyMouseMode(script, s, mouse, scroll).0)
  {
    var s1 := if mouse then s else DisableMode(script, s, MouseCapture).0;
    assert Safe(s1);
    var s2 := if scroll then s1 else DisableMode(script, s1, AlternateScroll).0;
    assert Safe(s2);
    var s3 := if scroll then EnableMode(script, s2, AlternateScroll).0 else s2;
    assert Safe(s3);
  }

  lemma ActIsSafe(script: Script, s: Lifecycle, action: Action)
    requires Safe(s)
    ensures Safe(Act(script, s, action).0)
  {
    match action
    case Activate =>
      ActivateMainStepsAreSafe(script, s);
      RestoreEachIsSafe(script, ActivateMainSteps(script, s).0, RESTORE_ORDER, None);
    case ActivateSmall =>
      var steps := EnableModes(script, s, [RawMode, AlternateScreen]);
      EnableModesIsSafe(script, s, [RawMode, AlternateScreen]);
      RestoreEachIsSafe(script, steps.0, RESTORE_ORDER, None);
    case SuppressKeyboard =>
    case SetMouseMode(mouse, scroll) => ApplyMouseModeIsSafe(script, s, mouse, scroll);
    case Hide =>
    case Reveal =>
    case Modes => RestoreEachIsSafe(script, s, MODE_ORDER, None);
    case All => RestoreEachIsSafe(script, s, RESTORE_ORDER, None);
  }

  lemma {:induction false} RunIsSafe(script: Script, s: Lifecycle, actions: seq<Action>)
    requires Safe(s)
    ensures Safe(ActAll(script, s, actions))
  {
    if actions != [] {
      RunIsSafe(script, s, actions[..|actions| - 1]);
      ActIsSafe(script, ActAll(script, s, actions[..|actions| - 1]), actions[|actions| - 1]);
    }
  }

  // ----- one cleanup pass, exactly -----

  /** The inverses of what is owed, in order. */
  function PassCalls(owed: Obligations, modes: seq<Mode>): seq<Operation> {
    if modes == [] then []
    else (if owed.Owes(modes[0]) then [Disable(modes[0])] else []) + PassCalls(owed, modes[1..])
  }

  /** The error of the first of the operations `start, ..., start + n - 1` that does not succeed. */
  function FirstError(script: Script, start: nat, n: nat): Option<IoError>
    decreases n
  {
    if n == 0 then None
    else if script(start).Succeeds? then FirstError(script, start + 1, n - 1)
    else Some(ResultOf(script(start)).error)
  }

  ghost predicate Distinct(modes: seq<Mode>) {
    forall i, j :: 0 <= i < j < |modes| ==> modes[i] != modes[j]
  }

  lemma {:induction false} PassCallsOnly(owed: Obligations, other: Obligations, modes: seq<Mode>)
    requires forall mode :: mode in modes ==> owed.Owes(mode) == other.Owes(mode)
    ensures PassCalls(owed, modes) == PassCalls(other, modes)
  {
    if modes != [] {
      assert modes[0] in modes;
      forall mode | mode in modes[1..]
        ensures owed.Owes(mode) == other.Owes(mode)
      {
        assert mode in modes;
      }
      PassCallsOnly(owed, other, modes[1..]);
    }
  }

  lemma {:induction false} PassCallsAreDisables(owed: Obligations, modes: seq<Mode>)
    ensures forall k :: 0 <= k < |PassCalls(owed, modes)| ==>
      PassCalls(owed, modes)[k].Disable? && PassCalls(owed, modes)[k].mode in modes
  {
    if modes != [] {
      PassCallsAreDisables(owed, modes[1..]);
      var rest := PassCalls(owed, modes[1..]);
      forall k | 0 <= k < |rest|
        ensures rest[k].mode in modes
      {
        assert rest[k].mode in modes[1..];
      }
    }
  }

  lemma RestoreOne(script: Script, s: Lifecycle, mode: Mode, first: Option<IoError>)
    ensures var (s', first') := RestoreMode(script, s, mode, first);
      && s'.suppressKeyboard == s.suppressKeyboard
      && (forall other :: other != mode ==> s'.owed.Owes(other) == s.owed.Owes(other))
      && (!s.owed.Owes(mode) ==> s' == s && first' == first)
      && (s.owed.Owes(mode) ==>
            && s'.device.calls == s.device.calls + [Disable(mode)]
            && (s'.owed.Owes(mode) <==> !script(|s.device.calls|).Succeeds?)
            && first' == RecordFirstError(first, ResultOf(script(|s.device.calls|))))
  {
    hide Obligations.Owes;
    hide Obligations.With;
  }

  /** Of the modes of the calls `start, start + 1, ...` exactly those are owed whose call did not succeed. */
  ghost predicate StillOwed(script: Script, start: nat, owed: Obligations, calls: seq<Operation>) {
    forall k :: 0 <= k < |calls| ==>
      calls[k].Disable? && (owed.Owes(calls[k].mode) <==> !script(start + k).Succeeds?)
  }

  lemma NothingStillOwed(script: Script, start: nat, owed: Obligations)
    ensures StillOwed(script, start, owed, [])
  {
  }

  lemma StillOwedFirst(script: Script, start: nat, owed: Obligations, mode: Mode, later: seq<Operation>)
    requires owed.Owes(mode) <==> !script(start).Succeeds?
    requires StillOwed(script, start + 1, owed, later)
    ensures StillOwed(script, start, owed, [Disable(mode)] + later)
  {
    hide Obligations.Owes;
    var calls := [Disable(mode)] + later;
    forall k | 0 <= k < |calls|
      ensures calls[k].Disable? && (owed.Owes(calls[k].mode) <==> !script(start + k).Succeeds?)
    {
      if k > 0 {
        assert calls[k] == later[k - 1];
        assert start + k == start + 1 + (k - 1);
      }
    }
  }

  /** A pass performs the inverse of exactly what is owed, once each and in order, whatever fails on
      the way; what remains owed is what failed; and the first failure is what it reports. */
  lemma {:induction false} RestorePass(script: Script, s: Lifecycle, modes: seq<Mode>, first: Option<IoError>)
    requires Distinct(modes)
    ensures var (s', first') := RestoreEach(script, s, modes, first);
      var calls, start := PassCalls(s.owed, modes), |s.device.calls|;
      && s'.device.calls == s.device.calls + calls
      && s'.suppressKeyboard == s.suppressKeyboard
      && StillOwed(script, start, s'.owed, calls)
      && (forall mode :: mode !in modes ==> s'.owed.Owes(mode) == s.owed.Owes(mode))
      && (forall mode :: s'.owed.Owes(mode) ==> s.owed.Owes(mode))
      && first' == (if first.Some? then first else FirstError(script, start, |calls|))
    decreases |modes|
  {
    hide Obligations.Owes;
    hide Obligations.With;
    hide RestoreMode;
    hide StillOwed;
    if modes == [] {
      NothingStillOwed(script, |s.device.calls|, s.owed);
      assert s.device.calls + [] == s.device.calls;
    } else {
      var mode, rest := modes[0], modes[1..];
      var (s1, first1) := RestoreMode(script, s, mode, first);
      RestoreOne(script, s, mode, first);
      assert mode !in rest;
      assert Distinct(rest);
      PassCallsOnly(s.owed, s1.owed, rest);
      RestorePass(script, s1, rest, first1);
      PassCallsAreDisables(s1.owed, rest);
      var calls, later := PassCalls(s.owed, modes), PassCalls(s1.owed, rest);
      var (s', first') := RestoreEach(script, s, modes, first);
      if s.owed.Owes(mode) {
        assert calls == [Disable(mode)] + later;
        assert s.device.calls + ([Disable(mode)] + later) == (s.device.calls + [Disable(mode)]) + later;
        StillOwedFirst(script, |s.device.calls|, s'.owed, mode, later);
      } else {
        assert calls == later;
      }
    }
  }

  lemma RestoreOrderIsComplete()
    ensures Distinct(RESTORE_ORDER) && forall mode: Mode :: mode in RESTORE_ORDER
  {
    forall mode: Mode
      ensures mode in RESTORE_ORDER
    {
      match mode
      case HiddenCursor => assert RESTORE_ORDER[0] == mode;
      case KeyboardEnhancement => assert RESTORE_ORDER[1] == mode;
      case BracketedPaste => assert RESTORE_ORDER[2] == mode;
      case MouseCapture => assert RESTORE_ORDER[3] == mode;
      case AlternateScroll => assert RESTORE_ORDER[4] == mode;
      case AlternateScreen => assert RESTORE_ORDER[5] == mode;
      case RawMode => assert RESTORE_ORDER[6] == mode;
    }
  }

  lemma ModeOrderIsDistinct()
    ensures Distinct(MODE_ORDER)
  {
    assert RESTORE_ORDER[1..] == MODE_ORDER;
  }

  lemma {:induction false} NoErrorMeansAllSucceed(script: Script, start: nat, n: nat)
    requires FirstError(script, start, n) == None
    ensures forall i :: start <= i < start + n ==> script(i).Succeeds?
    decreases n
  {
    if n > 0 {
      NoErrorMeansAllSucceed(script, start + 1, n - 1);
    }
  }

  lemma {:induction false} OwedIsCalled(owed: Obligations, modes: seq<Mode>, mode: Mode)
    requires mode in modes && owed.Owes(mode)
    ensures Disable(mode) in PassCalls(owed, modes)
  {
    if modes[0] != mode {
      assert mode in modes[1..];
      OwedIsCalled(owed, modes[1..], mode);
    }
  }

  /** Terminal safety: from a terminal with every mode off, after any actions with any failures, a
      restore-all that returns Ok leaves every mode off and nothing owed. */
  lemma RestoreAllSucceedsMeansOff(script: Script, actions: seq<Action>)
    ensures var s := ActAll(script, OFF, actions);
      var (s', result) := RestoreAll(script, s);
      result.Ok? ==> s'.device.on == {} && s'.owed == NOTHING_OWED
  {
    var s := ActAll(script, OFF, actions);
    var (s', result) := RestoreAll(script, s);
    RunIsSafe(script, OFF, actions);
    RestoreEachIsSafe(script, s, RESTORE_ORDER, None);
    if result.Ok? {
      OkPassOwesNothing(script, s);
      AllFlags(s'.owed);
      assert forall mode :: mode in s'.device.on ==> s'.owed.Owes(mode);
    }
  }

  lemma OkPassOwesNothing(script: Script, s: Lifecycle)
    requires RestoreAll(script, s).1.Ok?
    ensures forall mode :: !RestoreAll(script, s).0.owed.Owes(mode)
  {
    RestoreOrderIsComplete();
    RestorePass(script, s, RESTORE_ORDER, None);
    hide RestoreEach;
    var calls, start := PassCalls(s.owed, RESTORE_ORDER), |s.device.calls|;
    NoErrorMeansAllSucceed(script, start, |calls|);
    forall mode: Mode
      ensures !RestoreAll(script, s).0.owed.Owes(mode)
    {
      if s.owed.Owes(mode) {
        OwedIsCalled(s.owed, RESTORE_ORDER, mode);
        var k :| 0 <= k < |calls| && calls[k] == Disable(mode);
        assert script(start + k).Succeeds?;
      }
    }
  }

  lemma AllFlags(owed: Obligations)
    requires forall mode :: !owed.Owes(mode)
    ensures owed == NOTHING_OWED
  {
    assert !owed.Owes(RawMode) && !owed.Owes(KeyboardEnhancement) && !owed.Owes(AlternateScreen);
    assert !owed.Owes(AlternateScroll) && !owed.Owes(MouseCapture) && !owed.Owes(BracketedPaste);
    assert !owed.Owes(HiddenCursor);
  }

  // ----- repeated cleanup -----

  function Passes(script: Script, s: Lifecycle, n: nat): Lifecycle {
    if n == 0 then s else RestoreAll(script, Passes(script, s, n - 1)).0
  }

  /** If the i-th call succeeded, its inverse is settled: not owed, and not performed again. */
  ghost predicate Settled(script: Script, s: Lifecycle, i: nat)
    requires i < |s.device.calls|
  {
    var call := s.device.calls[i];
    && call.Disable?
    && (script(i).Succeeds? ==>
          !s.owed.Owes(call.mode) && forall j :: i < j < |s.device.calls| ==> s.device.calls[j] != call)
  }

  ghost predicate SettledOnce(script: Script, s: Lifecycle, start: nat) {
    && start <= |s.device.calls|
    && forall i :: start <= i < |s.device.calls| ==> Settled(script, s, i)
  }

  ghost predicate Unrepeated(calls: seq<Operation>, i: nat)
    requires i < |calls|
  {
    forall j :: i < j < |calls| ==> calls[j] != calls[i]
  }

  ghost predicate OwedOnce(owed: Obligations, calls: seq<Operation>, k: nat)
    requires k < |calls|
  {
    calls[k].Disable? && owed.Owes(calls[k].mode) && Unrepeated(calls, k)
  }

  lemma {:induction false} PassCallsAreOwedOnce(owed: Obligations, modes: seq<Mode>, calls: seq<Operation>)
    requires Distinct(modes) && calls == PassCalls(owed, modes)
    ensures forall k :: 0 <= k < |calls| ==> OwedOnce(owed, calls, k)
    decreases |modes|
  {
    if modes != [] {
      var rest := PassCalls(owed, modes[1..]);
      assert Distinct(modes[1..]);
      PassCallsAreOwedOnce(owed, modes[1..], rest);
      PassCallsAreDisables(owed, modes[1..]);
      if owed.Owes(modes[0]) {
        assert calls == [Disable(modes[0])] + rest;
        forall k | 0 <= k < |calls|
          ensures OwedOnce(owed, calls, k)
        {
          if k > 0 {
            assert calls[k] == rest[k - 1] && OwedOnce(owed, rest, k - 1);
          }
          forall j | k < j < |calls|
            ensures calls[j] != calls[k]
          {
            assert calls[j] == rest[j - 1] && rest[j - 1].mode in modes[1..];
          }
        }
      } else {
        assert calls == rest;
      }
    }
  }

  lemma PassSettles(script: Script, s: Lifecycle, s': Lifecycle, calls: seq<Operation>, i: nat)
    requires s'.device.calls == s.device.calls + calls && i < |s'.device.calls|
    requires forall mode :: s'.owed.Owes(mode) ==> s.owed.Owes(mode)
    requires forall k :: 0 <= k < |calls| ==>
      && OwedOnce(s.owed, calls, k)
      && (s'.owed.Owes(calls[k].mode) <==> !script(|s.device.calls| + k).Succeeds?)
    requires i < |s.device.calls| ==> Settled(script, s, i)
    ensures Settled(script, s', i)
  {
    var before := |s.device.calls|;
    if i >= before {
      assert OwedOnce(s.owed, calls, i - before);
      assert before + (i - before) == i;
    }
    forall j | i < j < |s'.device.calls| && script(i).Succeeds?
      ensures s'.device.calls[j] != s'.device.calls[i]
    {
      if j >= before {
        assert s'.device.calls[j] == calls[j - before] && OwedOnce(s.owed, calls, j - before);
      }
    }
  }

  lemma PassKeepsSettled(script: Script, s: Lifecycle, start: nat)
    requires SettledOnce(script, s, start)
    ensures SettledOnce(script, RestoreAll(script, s).0, start)
  {
    RestoreOrderIsComplete();
    RestorePass(script, s, RESTORE_ORDER, None);
    PassCallsAreOwedOnce(s.owed, RESTORE_ORDER, PassCalls(s.owed, RESTORE_ORDER));
    hide RestoreEach;
    hide Settled;
    var s' := RestoreAll(script, s).0;
    forall i | start <= i < |s'.device.calls|
      ensures Settled(script, s', i)
    {
      PassSettles(script, s, s', PassCalls(s.owed, RESTORE_ORDER), i);
    }
  }

  /** Over any number of cleanup passes, no inverse is performed again after it succeeded. */
  lemma {:induction false} RepeatedCleanupSettlesOnce(script: Script, s: Lifecycle, n: nat)
    ensures SettledOnce(script, Passes(script, s, n), |s.device.calls|)
  {
    if n > 0 {
      RepeatedCleanupSettlesOnce(script, s, n - 1);
      PassKeepsSettled(script, Passes(script, s, n - 1), |s.device.calls|);
    }
  }

  // ----- what the guard relies on -----

  /** Restoring and showing the cursor never add an obligation. */
  lemma CleanupAddsNothing(script: Script, s: Lifecycle, action: Action)
    requires action.Reveal? || action.Modes? || action.All?
    ensures forall mode :: Act(script, s, action).0.owed.Owes(mode) ==> s.owed.Owes(mode)
  {
    hide Obligations.Owes;
    hide Obligations.With;
    hide RestoreEach;
    hide PassCalls;
    if !action.Reveal? {
      var modes := if action.All? then RESTORE_ORDER else MODE_ORDER;
      ModeOrderIsDistinct();
      RestoreOrderIsComplete();
      RestorePass(script, s, modes, None);
    }
  }
}
