/** The lifecycle state as an object: each method switches modes on the terminal and keeps the
    obligation flags up to date around every operation. */
module TerminalLifecycle {
  import opened Wrappers
  import opened TerminalModes

  class Terminal {
    const script: Script
    var on: set<Mode>
    var calls: seq<Operation>

    constructor (script: Script)
      ensures this.script == script && View() == Device({}, [])
    {
      this.script := script;
      on, calls := {}, [];
    }

    function View(): Device
      reads this
    {
      Device(on, calls)
    }

    method Perform(operation: Operation) returns (result: Result<(), IoError>)
      modifies this
      ensures View() == DeviceAfter(script, old(View()), operation)
      ensures result == ResultOf(script(|old(calls)|))
    {
      var outcome := script(|calls|);
      if outcome.Succeeds? || (outcome.Fails? && outcome.tookEffect) {
        match operation {
          case Enable(mode) => on := on + {mode};
          case Disable(mode) => on := on - {mode};
        }
      }
      calls := calls + [operation];
      result := ResultOf(outcome);
    }
  }

  class TerminalLifecycleState {
    var suppressKeyboardEnhancement: bool
    var mustDisableRawMode: bool
    var mustDisableKeyboardEnhancement: bool
    var mustLeaveAlternateScreen: bool
    var mustDisableAlternateScroll: bool
    var mustDisableMouseCapture: bool
    var mustDisableBracketedPaste: bool
    var mustShowCursor: bool

    constructor ()
      ensures !suppressKeyboardEnhancement && Owed() == NOTHING_OWED
    {
      suppressKeyboardEnhancement := false;
      mustDisableRawMode, mustDisableKeyboardEnhancement := false, false;
      mustLeaveAlternateScreen, mustDisableAlternateScroll := false, false;
      mustDisableMouseCapture, mustDisableBracketedPaste, mustShowCursor := false, false, false;
    }

    function Owed(): Obligations
      reads this
    {
      Obligations(mustDisableRawMode, mustDisableKeyboardEnhancement, mustLeaveAlternateScreen,
                  mustDisableAlternateScroll, mustDisableMouseCapture, mustDisableBracketedPaste, mustShowCursor)
    }

    function View(terminal: Terminal): Lifecycle
      reads this, terminal
    {
      Lifecycle(suppressKeyboardEnhancement, Owed(), terminal.View())
    }

    predicate HasRestoreObligations()
      reads this
      ensures HasRestoreObligations() <==> exists mode :: Owed().Owes(mode)
    {
      assert Owed().Owes(RawMode) == mustDisableRawMode;
      assert Owed().Owes(KeyboardEnhancement) == mustDisableKeyboardEnhancement;
      assert Owed().Owes(AlternateScreen) == mustLeaveAlternateScreen;
      assert Owed().Owes(AlternateScroll) == mustDisableAlternateScroll;
      assert Owed().Owes(MouseCapture) == mustDisableMouseCapture;
      assert Owed().Owes(BracketedPaste) == mustDisableBracketedPaste;
      assert Owed().Owes(HiddenCursor) == mustShowCursor;
      || mustDisableRawMode
      || mustDisableKeyboardEnhancement
      || mustLeaveAlternateScreen
      || mustDisableAlternateScroll
      || mustDisableMouseCapture
      || mustDisableBracketedPaste
      || mustShowCursor
    }

    // ----- single modes -----

    method EnableRawMode(terminal: Terminal) returns (result: Result<(), IoError>)
      modifies this, terminal
      ensures (View(terminal), result) == EnableMode(terminal.script, old(View(terminal)), RawMode)
    {
      if mustDisableRawMode { return Ok(()); }
      mustDisableRawMode := true;
      result := terminal.Perform(Enable(RawMode));
    }

    method EnableKeyboardEnhancement(terminal: Terminal)
      modifies this, terminal
      ensures View(terminal) == EnableKeyboard(terminal.script, old(View(terminal)))
    {
      if suppressKeyboardEnhancement || mustDisableKeyboardEnhancement { return; }
      mustDisableKeyboardEnhancement := true;
      var result := terminal.Perform(Enable(KeyboardEnhancement));
      if result.Err? && result.error.isUnsupported {
        mustDisableKeyboardEnhancement := false;
      }
    }

    method EnterAlternateScreen(terminal: Terminal) returns (result: Result<(), IoError>)
      modifies this, terminal
      ensures (View(terminal), result) == EnableMode(terminal.script, old(View(terminal)), AlternateScreen)
    {
      if mustLeaveAlternateScreen { return Ok(()); }
      mustLeaveAlternateScreen := true;
      result := terminal.Perform(Enable(AlternateScreen));
    }

    method EnforceAlternateScrollDisabled(terminal: Terminal) returns (result: Result<(), IoError>)
      modifies this, terminal
      ensures (View(terminal), result) == ForceDisableMode(terminal.script, old(View(terminal)), AlternateScroll)
    {
      result := terminal.Perform(Disable(AlternateScroll));
      if result.Ok? {
        mustDisableAlternateScroll := false;
      }
    }

    method EnableAlternateScroll(terminal: Terminal) returns (result: Result<(), IoError>)
      modifies this, terminal
      ensures (View(terminal), result) == EnableMode(terminal.script, old(View(terminal)), AlternateScroll)
    {
      if mustDisableAlternateScroll { return Ok(()); }
      mustDisableAlternateScroll := true;
      result := terminal.Perform(Enable(AlternateScroll));
    }

    method DisableAlternateScroll(terminal: Terminal) returns (result: Result<(), IoError>)
      modifies this, terminal
      ensures (View(terminal), result) == DisableMode(terminal.script, old(View(terminal)), AlternateScroll)
    {
      if !mustDisableAlternateScroll { return Ok(()); }
      result := EnforceAlternateScrollDisabled(terminal);
    }

    method EnableMouseCapture(terminal: Terminal) returns (result: Result<(), IoError>)
      modifies this, terminal
      ensures (View(terminal), result) == EnableMode(terminal.script, old(View(terminal)), MouseCapture)
    {
      if mustDisableMouseCapture { return Ok(()); }
      mustDisableMouseCapture := true;
      result := terminal.Perform(Enable(MouseCapture));
    }

    method DisableMouseCapture(terminal: Terminal) returns (result: Result<(), IoError>)
      modifies this, terminal
      ensures (View(terminal), result) == DisableMode(terminal.script, old(View(terminal)), MouseCapture)
    {
      if !mustDisableMouseCapture { return Ok(()); }
      result := terminal.Perform(Disable(MouseCapture));
      if result.Ok? {
        mustDisableMouseCapture := false;
      }
    }

    method EnableBracketedPaste(terminal: Terminal) returns (result: Result<(), IoError>)
      modifies this, terminal
      ensures (View(terminal), result) == EnableMode(terminal.script, old(View(terminal)), BracketedPaste)
    {
      if mustDisableBracketedPaste { return Ok(()); }
      mustDisableBracketedPaste := true;
      result := terminal.Perform(Enable(BracketedPaste));
    }

    method HideCursor(terminal: Terminal) returns (result: Result<(), IoError>)
      modifies this, terminal
      ensures (View(terminal), result) == TerminalModes.HideCursor(terminal.script, old(View(terminal)))
    {
      mustShowCursor := true;
      result := terminal.Perform(Enable(HiddenCursor));
    }

    method ShowCursor(terminal: Terminal) returns (result: Result<(), IoError>)
      modifies this, terminal
      ensures (View(terminal), result) == DisableMode(terminal.script, old(View(terminal)), HiddenCursor)
    {
      if !mustShowCursor { return Ok(()); }
      result := terminal.Perform(Disable(HiddenCursor));
      if result.Ok? {
        mustShowCursor := false;
      }
    }

    // ----- cleanup -----

    method RestoreAll(terminal: Terminal) returns (result: Result<(), IoError>)
      modifies this, terminal
      ensures (View(terminal), result) == TerminalModes.RestoreAll(terminal.script, old(View(terminal)))
    {
      ghost var script, before := terminal.script, View(terminal);
      var firstError: Option<IoError> := None;
      if mustShowCursor {
        var shown := terminal.Perform(Disable(HiddenCursor));
        match shown {
          case Ok(_) => mustShowCursor := false;
          case Err(_) =>
        }
        firstError := RecordFirstError(firstError, shown);
      }
      assert (View(terminal), firstError) == RestoreMode(script, before, HiddenCursor, None);
      assert RESTORE_ORDER[1..] == MODE_ORDER;
      firstError := RestoreModesCollectingError(terminal, firstError);
      result := FinishCleanup(firstError);
    }

    method RestoreModes(terminal: Terminal) returns (result: Result<(), IoError>)
      modifies this, terminal
      ensures (View(terminal), result) == TerminalModes.RestoreModes(terminal.script, old(View(terminal)))
    {
      var firstError := RestoreModesCollectingError(terminal, None);
      result := FinishCleanup(firstError);
    }

    method DisableKeyboardEnhancement(terminal: Terminal) returns (result: Result<(), IoError>)
      modifies this, terminal
      ensures (View(terminal), result) == DisableMode(terminal.script, old(View(terminal)), KeyboardEnhancement)
    {
      if !mustDisableKeyboardEnhancement { return Ok(()); }
      result := terminal.Perform(Disable(KeyboardEnhancement));
      if result.Ok? {
        mustDisableKeyboardEnhancement := false;
      }
    }

    method DisableBracketedPaste(terminal: Terminal) returns (result: Result<(), IoError>)
      modifies this, terminal
      ensures (View(terminal), result) == DisableMode(terminal.script, old(View(terminal)), BracketedPaste)
    {
      if !mustDisableBracketedPaste { return Ok(()); }
      result := terminal.Perform(Disable(BracketedPaste));
      if result.Ok? {
        mustDisableBracketedPaste := false;
      }
    }

    method LeaveAlternateScreen(terminal: Terminal) returns (result: Result<(), IoError>)
      modifies this, terminal
      ensures (View(terminal), result) == DisableMode(terminal.script, old(View(terminal)), AlternateScreen)
    {
      if !mustLeaveAlternateScreen { return Ok(()); }
      result := terminal.Perform(Disable(AlternateScreen));
      if result.Ok? {
        mustLeaveAlternateScreen := false;
      }
    }

    method DisableRawMode(terminal: Terminal) returns (result: Result<(), IoError>)
      modifies this, terminal
      ensures (View(terminal), result) == DisableMode(terminal.script, old(View(terminal)), RawMode)
    {
      if !mustDisableRawMode { return Ok(()); }
      result := terminal.Perform(Disable(RawMode));
      if result.Ok? {
        mustDisableRawMode := false;
      }
    }

    /** Undoes one mode after the other, whatever fails on the way. */
    method RestoreModesCollectingError(terminal: Terminal, firstErrorIn: Option<IoError>)
      returns (firstError: Option<IoError>)
      modifies this, terminal
      ensures (View(terminal), firstError)
              == RestoreEach(terminal.script, old(View(terminal)), MODE_ORDER, firstErrorIn)
    {
      hide *;
      ghost var script, s0 := terminal.script, View(terminal);
      var r1 := DisableKeyboardEnhancement(terminal);
      var e1 := RecordFirstError(firstErrorIn, r1);
      ghost var s1 := View(terminal);
      OneMode(script, s0, KeyboardEnhancement, firstErrorIn, s1, r1);
      var r2 := DisableBracketedPaste(terminal);
      var e2 := RecordFirstError(e1, r2);
      ghost var s2 := View(terminal);
      OneMode(script, s1, BracketedPaste, e1, s2, r2);
      var r3 := DisableMouseCapture(terminal);
      var e3 := RecordFirstError(e2, r3);
      ghost var s3 := View(terminal);
      OneMode(script, s2, MouseCapture, e2, s3, r3);
      var r4 := DisableAlternateScroll(terminal);
      var e4 := RecordFirstError(e3, r4);
      ghost var s4 := View(terminal);
      OneMode(script, s3, AlternateScroll, e3, s4, r4);
      var r5 := LeaveAlternateScreen(terminal);
      var e5 := RecordFirstError(e4, r5);
      ghost var s5 := View(terminal);
      OneMode(script, s4, AlternateScreen, e4, s5, r5);
      var r6 := DisableRawMode(terminal);
      var e6 := RecordFirstError(e5, r6);
      ghost var s6 := View(terminal);
      OneMode(script, s5, RawMode, e5, s6, r6);
      SixModes(script, s0, firstErrorIn, s1, e1, s2, e2, s3, e3, s4, e4, s5, e5, s6, e6);
      firstError := e6;
    }

    // ----- whole operations -----

    method ActivateMain(terminal: Terminal) returns (result: Result<(), IoError>)
      modifies this, terminal
      ensures (View(terminal), result) == TerminalModes.ActivateMain(terminal.script, old(View(terminal)))
    {
      result := ActivateMainSteps(terminal);
      if result.Err? {
        var _ := RestoreAll(terminal);
      }
    }

    method ActivateMainSteps(terminal: Terminal) returns (result: Result<(), IoError>)
      modifies this, terminal
      ensures (View(terminal), result) == TerminalModes.ActivateMainSteps(terminal.script, old(View(terminal)))
    {
      ghost var script, s0 := terminal.script, View(terminal);
      result := EnableRawMode(terminal);
      ghost var s1, r1 := View(terminal), result;
      if result.Ok? {
        result := EnterAlternateScreen(terminal);
      }
      TwoModes(script, s0, RawMode, AlternateScreen);
      if result.Err? { return; }
      result := EnforceAlternateScrollDisabled(terminal);
      if result.Err? { return; }
      ghost var s3 := View(terminal);
      result := EnableMouseCapture(terminal);
      if result.Ok? {
        result := EnableBracketedPaste(terminal);
      }
      TwoModes(script, s3, MouseCapture, BracketedPaste);
      if result.Err? { return; }
      EnableKeyboardEnhancement(terminal);
    }

    method ActivateMinimal(terminal: Terminal) returns (result: Result<(), IoError>)
      modifies this, terminal
      ensures (View(terminal), result) == TerminalModes.ActivateMinimal(terminal.script, old(View(terminal)))
    {
      TwoModes(terminal.script, View(terminal), RawMode, AlternateScreen);
      result := EnableRawMode(terminal);
      if result.Ok? {
        result := EnterAlternateScreen(terminal);
      }
      if result.Err? {
        var _ := RestoreAll(terminal);
      }
    }

    method ApplyMouseMode(terminal: Terminal, hasMouseCapture: bool, hasAlternateScroll: bool)
      returns (result: Result<(), IoError>)
      modifies this, terminal
      ensures (View(terminal), result)
              == TerminalModes.ApplyMouseMode(terminal.script, old(View(terminal)), hasMouseCapture, hasAlternateScroll)
    {
      if !hasMouseCapture {
        result := DisableMouseCapture(terminal);
        if result.Err? { return; }
      }
      if !hasAlternateScroll {
        result := DisableAlternateScroll(terminal);
        if result.Err? { return; }
      }
      if hasAlternateScroll {
        result := EnableAlternateScroll(terminal);
        if result.Err? { return; }
      }
      if hasMouseCapture {
        result := EnableMouseCapture(terminal);
        if result.Err? { return; }
      }
      result := Ok(());
    }
  }

  lemma TwoModes(script: Script, s: Lifecycle, first: Mode, second: Mode)
    ensures EnableModes(script, s, [first, second])
            == var (s1, r1) := EnableMode(script, s, first);
               if r1.Err? then (s1, r1) else EnableMode(script, s1, second)
  {
    assert [first, second][1..] == [second] && [second][1..] == [];
    var (s1, r1) := EnableMode(script, s, first);
    assert EnableModes(script, s1, [second]) == EnableMode(script, s1, second) by {
      var (s2, r2) := EnableMode(script, s1, second);
      assert EnableModes(script, s2, []) == (s2, Ok(()));
    }
  }

  lemma OneMode(script: Script, s: Lifecycle, mode: Mode, first: Option<IoError>, s': Lifecycle,
                result: Result<(), IoError>)
    requires (s', result) == DisableMode(script, s, mode)
    ensures (s', RecordFirstError(first, result)) == RestoreMode(script, s, mode, first)
  {
  }

  lemma RestoreEachCons(script: Script, s: Lifecycle, modes: seq<Mode>, first: Option<IoError>, s': Lifecycle,
                        first': Option<IoError>)
    requires modes != [] && (s', first') == RestoreMode(script, s, modes[0], first)
    ensures RestoreEach(script, s, modes, first) == RestoreEach(script, s', modes[1..], first')
  {
  }

  lemma SixModes(
    script: Script, s0: Lifecycle, e0: Option<IoError>, s1: Lifecycle, e1: Option<IoError>,
    s2: Lifecycle, e2: Option<IoError>, s3: Lifecycle, e3: Option<IoError>, s4: Lifecycle, e4: Option<IoError>,
    s5: Lifecycle, e5: Option<IoError>, s6: Lifecycle, e6: Option<IoError>)
    requires (s1, e1) == RestoreMode(script, s0, KeyboardEnhancement, e0)
    requires (s2, e2) == RestoreMode(script, s1, BracketedPaste, e1)
    requires (s3, e3) == RestoreMode(script, s2, MouseCapture, e2)
    requires (s4, e4) == RestoreMode(script, s3, AlternateScroll, e3)
    requires (s5, e5) == RestoreMode(script, s4, AlternateScreen, e4)
    requires (s6, e6) == RestoreMode(script, s5, RawMode, e5)
    ensures RestoreEach(script, s0, MODE_ORDER, e0) == (s6, e6)
  {
    hide RestoreMode;
    RestoreEachCons(script, s0, MODE_ORDER, e0, s1, e1);
    RestoreEachCons(script, s1, MODE_ORDER[1..], e1, s2, e2);
    RestoreEachCons(script, s2, MODE_ORDER[1..][1..], e2, s3, e3);
    RestoreEachCons(script, s3, MODE_ORDER[1..][1..][1..], e3, s4, e4);
    RestoreEachCons(script, s4, MODE_ORDER[1..][1..][1..][1..], e4, s5, e5);
    RestoreEachCons(script, s5, MODE_ORDER[1..][1..][1..][1..][1..], e5, s6, e6);
  }
}
