/** Terminal modes, the operations that switch them, and which of them still have to be undone. */
module TerminalModes {
  import opened Wrappers

  datatype Mode =
    | RawMode | KeyboardEnhancement | AlternateScreen | AlternateScroll
    | MouseCapture | BracketedPaste | HiddenCursor

  datatype Operation = Enable(mode: Mode) | Disable(mode: Mode)

  /** What happens to one operation. A failing operation may or may not have reached the terminal; one
      that is not supported has not. */
  datatype Outcome = Succeeds | Fails(error: int, tookEffect: bool) | Unsupported(error: int)

  datatype IoError = IoError(code: int, isUnsupported: bool)

  type Script = nat -> Outcome

  /** The modes that are on, and every operation performed so far; the k-th one goes as `script(k)`. */
  datatype Device = Device(on: set<Mode>, calls: seq<Operation>)

  function Effect(on: set<Mode>, operation: Operation): set<Mode> {
    match operation
    case Enable(mode) => on + {mode}
    case Disable(mode) => on - {mode}
  }

  function ResultOf(outcome: Outcome): Result<(), IoError> {
    match outcome
    case Succeeds => Ok(())
    case Fails(error, _) => Err(IoError(error, false))
    case Unsupported(error) => Err(IoError(error, true))
  }

  function DeviceAfter(script: Script, device: Device, operation: Operation): Device {
    var outcome := script(|device.calls|);
    var reached := outcome.Succeeds? || (outcome.Fails? && outcome.tookEffect);
    Device(if reached then Effect(device.on, operation) else device.on, device.calls + [operation])
  }

  function Perform(script: Script, device: Device, operation: Operation): (Device, Result<(), IoError>) {
    (DeviceAfter(script, device, operation), ResultOf(script(|device.calls|)))
  }

  /** The inverse operations still owed, one flag per mode. */
  datatype Obligations = Obligations(
    rawMode: bool, keyboardEnhancement: bool, alternateScreen: bool, alternateScroll: bool,
    mouseCapture: bool, bracketedPaste: bool, hiddenCursor: bool)
  {
    predicate Owes(mode: Mode) {
      match mode
      case RawMode => rawMode
      case KeyboardEnhancement => keyboardEnhancement
      case AlternateScreen => alternateScreen
      case AlternateScroll => alternateScroll
      case MouseCapture => mouseCapture
      case BracketedPaste => bracketedPaste
      case HiddenCursor => hiddenCursor
    }

    function With(mode: Mode, owed: bool): (r: Obligations)
      ensures r.Owes(mode) == owed
      ensures forall other :: other != mode ==> r.Owes(other) == Owes(other)
    {
      match mode
      case RawMode => this.(rawMode := owed)
      case KeyboardEnhancement => this.(keyboardEnhancement := owed)
      case AlternateScreen => this.(alternateScreen := owed)
      case AlternateScroll => this.(alternateScroll := owed)
      case MouseCapture => this.(mouseCapture := owed)
      case BracketedPaste => this.(bracketedPaste := owed)
      case HiddenCursor => this.(hiddenCursor := owed)
    }

    predicate Any() {
      || rawMode || keyboardEnhancement || alternateScreen || alternateScroll
      || mouseCapture || bracketedPaste || hiddenCursor
    }
  }

  const NOTHING_OWED := Obligations(false, false, false, false, false, false, false)

  /** The lifecycle state together with the terminal it controls. */
  datatype Lifecycle = Lifecycle(suppressKeyboard: bool, owed: Obligations, device: Device)

  // ----- single modes -----

  /** Records the inverse first, then switches the mode on. */
  function EnableMode(script: Script, s: Lifecycle, mode: Mode): (Lifecycle, Result<(), IoError>) {
    if s.owed.Owes(mode) then (s, Ok(()))
    else
      var (device, result) := Perform(script, s.device, Enable(mode));
      (s.(owed := s.owed.With(mode, true), device := device), result)
  }

  function DisableMode(script: Script, s: Lifecycle, mode: Mode): (Lifecycle, Result<(), IoError>) {
    if !s.owed.Owes(mode) then (s, Ok(())) else ForceDisableMode(script, s, mode)
  }

  function ForceDisableMode(script: Script, s: Lifecycle, mode: Mode): (Lifecycle, Result<(), IoError>) {
    var (device, result) := Perform(script, s.device, Disable(mode));
    (s.(owed := if result.Ok? then s.owed.With(mode, false) else s.owed, device := device), result)
  }

  /** Best effort: errors are swallowed, and only an unsupported push takes its inverse back. */
  function EnableKeyboard(script: Script, s: Lifecycle): Lifecycle {
    if s.suppressKeyboard || s.owed.keyboardEnhancement then s
    else
      var (device, result) := Perform(script, s.device, Enable(KeyboardEnhancement));
      s.(owed := s.owed.With(KeyboardEnhancement, !(result.Err? && result.error.isUnsupported)), device := device)
  }

  /** Always runs, so that cursor hiding can be repeated. */
  function HideCursor(script: Script, s: Lifecycle): (Lifecycle, Result<(), IoError>) {
    var (device, result) := Perform(script, s.device, Enable(HiddenCursor));
    (s.(owed := s.owed.With(HiddenCursor, true), device := device), result)
  }

  // ----- cleanup -----

  const MODE_ORDER := [KeyboardEnhancement, BracketedPaste, MouseCapture, AlternateScroll, AlternateScreen, RawMode]

  const RESTORE_ORDER := [HiddenCursor] + MODE_ORDER

  function RecordFirstError(first: Option<IoError>, result: Result<(), IoError>): Option<IoError> {
    if first.None? && result.Err? then Some(result.error) else first
  }

  function RestoreMode(script: Script, s: Lifecycle, mode: Mode, first: Option<IoError>): (Lifecycle, Option<IoError>) {
    var (s', result) := DisableMode(script, s, mode);
    (s', RecordFirstError(first, result))
  }

  function RestoreEach(script: Script, s: Lifecycle, modes: seq<Mode>, first: Option<IoError>)
    : (Lifecycle, Option<IoError>)
    decreases |modes|
  {
    if modes == [] then (s, first)
    else
      var (s', first') := RestoreMode(script, s, modes[0], first);
      RestoreEach(script, s', modes[1..], first')
  }

  function FinishCleanup(first: Option<IoError>): Result<(), IoError> {
    match first
    case Some(error) => Err(error)
    case None => Ok(())
  }

  function RestoreAll(script: Script, s: Lifecycle): (Lifecycle, Result<(), IoError>) {
    var (s', first) := RestoreEach(script, s, RESTORE_ORDER, None);
    (s', FinishCleanup(first))
  }

  function RestoreModes(script: Script, s: Lifecycle): (Lifecycle, Result<(), IoError>) {
    var (s', first) := RestoreEach(script, s, MODE_ORDER, None);
    (s', FinishCleanup(first))
  }

  // ----- whole operations -----

  function EnableModes(script: Script, s: Lifecycle, modes: seq<Mode>): (Lifecycle, Result<(), IoError>)
    decreases |modes|
  {
    if modes == [] then (s, Ok(()))
    else
      var (s', result) := EnableMode(script, s, modes[0]);
      if result.Err? then (s', result) else EnableModes(script, s', modes[1..])
  }

  function ActivateMainSteps(script: Script, s: Lifecycle): (Lifecycle, Result<(), IoError>) {
    var (s1, r1) := EnableModes(script, s, [RawMode, AlternateScreen]);
    if r1.Err? then (s1, r1)
    else
      var (s2, r2) := ForceDisableMode(script, s1, AlternateScroll);
      if r2.Err? then (s2, r2)
      else
        var (s3, r3) := EnableModes(script, s2, [MouseCapture, BracketedPaste]);
        if r3.Err? then (s3, r3) else (EnableKeyboard(script, s3), Ok(()))
  }

  /** A failed activation cleans up and reports why it failed, not how the cleanup went. */
  function OrRestore(script: Script, steps: (Lifecycle, Result<(), IoError>)): (Lifecycle, Result<(), IoError>) {
    if steps.1.Err? then (RestoreAll(script, steps.0).0, steps.1) else steps
  }

  function ActivateMain(script: Script, s: Lifecycle): (Lifecycle, Result<(), IoError>) {
    OrRestore(script, ActivateMainSteps(script, s))
  }

  function ActivateMinimal(script: Script, s: Lifecycle): (Lifecycle, Result<(), IoError>) {
    OrRestore(script, EnableModes(script, s, [RawMode, AlternateScreen]))
  }

  function ApplyMouseMode(script: Script, s: Lifecycle, mouse: bool, scroll: bool): (Lifecycle, Result<(), IoError>) {
    var (s1, r1) := if mouse then (s, Ok(())) else DisableMode(script, s, MouseCapture);
    if r1.Err? then (s1, r1)
    else
      var (s2, r2) := if scroll then (s1, Ok(())) else DisableMode(script, s1, AlternateScroll);
      if r2.Err? then (s2, r2)
      else
        var (s3, r3) := if scroll then EnableMode(script, s2, AlternateScroll) else (s2, Ok(()));
        if r3.Err? then (s3, r3)
        else if mouse then EnableMode(script, s3, MouseCapture) else (s3, Ok(()))
  }
}
